/**
 The output-type mapping of pkg/gofr/graphql.go: a memoised walk over a type graph that may be
 cyclic, caching each object before its fields are filled in.
 */
module GraphQLTypes {

  // ----- The schema -----

  datatype TypeRef = Named(name: string, nonNull: bool) | ListOf(elem: TypeRef, nonNull: bool)

  datatype Field = Field(name: string, typ: TypeRef)

  datatype Definition = Object(fields: seq<Field>) | Enum(values: seq<string>) | Other

  type Schema = map<string, Definition>

  function Height(t: TypeRef): nat {
    match t
    case Named(_, _) => 2
    case ListOf(elem, _) => Height(elem) + 1
  }

  predicate IsBuiltin(name: string) {
    name == "String" || name == "ID" || name == "Int" || name == "Float" || name == "Boolean"
  }

  function Builtin(name: string): string {
    if name == "ID" then "String" else name
  }

  predicate IsObject(schema: Schema, name: string) {
    !IsBuiltin(name) && name in schema && schema[name].Object?
  }

  predicate IsEnum(schema: Schema, name: string) {
    !IsBuiltin(name) && name in schema && schema[name].Enum?
  }

  function FieldNames(fs: seq<Field>): set<string> {
    set k | 0 <= k < |fs| :: fs[k].name
  }

  /** The type of the last field of that name, the one AddFieldConfig leaves in place. */
  function TypeOf(fs: seq<Field>, name: string): TypeRef
    requires name in FieldNames(fs)
  {
    var last := fs[|fs| - 1];
    if last.name == name then last.typ
    else
      assert forall k | 0 <= k < |fs| - 1 :: fs[..|fs| - 1][k] == fs[k];
      TypeOf(fs[..|fs| - 1], name)
  }

  // ----- The mapped types -----

  class GObject {
    const name: string
    var fields: map<string, Output>

    constructor (name: string)
      ensures this.name == name && fields == map[]
    {
      this.name, fields := name, map[];
    }
  }

  class GEnum {
    const name: string
    const values: set<string>

    constructor (name: string, values: set<string>)
      ensures this.name == name && this.values == values
    {
      this.name, this.values := name, values;
    }
  }

  datatype Output =
    | Scalar(s: string)
    | EnumRef(e: GEnum)
    | ObjectRef(o: GObject)
    | List(of: Output)
    | NonNull(inner: Output)

  // ----- What an output type has to be -----

  /** The schema with the objects and enums cached for it so far. */
  datatype Scope = Scope(schema: Schema, types: map<string, GObject>, enums: map<string, GEnum>)

  ghost predicate CoreImage(sc: Scope, name: string, out: Output) {
    if IsBuiltin(name) then out == Scalar(Builtin(name))
    else if IsObject(sc.schema, name) then name in sc.types && out == ObjectRef(sc.types[name])
    else if IsEnum(sc.schema, name) then name in sc.enums && out == EnumRef(sc.enums[name])
    else out == Scalar("String")
  }

  /** out is the image of t, with its list and non-null wrappers. */
  ghost predicate Image(sc: Scope, t: TypeRef, out: Output)
    decreases t, 1
  {
    if t.nonNull then out.NonNull? && Bare(sc, t, out.inner) else Bare(sc, t, out)
  }

  ghost predicate Bare(sc: Scope, t: TypeRef, out: Output)
    decreases t, 0
  {
    match t
    case Named(name, _) => CoreImage(sc, name, out)
    case ListOf(elem, _) => out.List? && Image(sc, elem, out.of)
  }

  ghost predicate FieldsImage(sc: Scope, fs: seq<Field>, m: map<string, Output>) {
    m.Keys == FieldNames(fs) && forall name | name in m :: Image(sc, TypeOf(fs, name), m[name])
  }

  ghost predicate Grown(sc: Scope, sc': Scope) {
    && sc'.schema == sc.schema
    && (forall name | name in sc.types :: name in sc'.types && sc'.types[name] == sc.types[name])
    && (forall name | name in sc.enums :: name in sc'.enums && sc'.enums[name] == sc.enums[name])
  }

  lemma {:induction false} ImageGrows(sc: Scope, sc': Scope, t: TypeRef, out: Output)
    requires Grown(sc, sc') && Image(sc, t, out)
    ensures Image(sc', t, out)
    decreases t
  {
    if t.ListOf? {
      var bare := if t.nonNull then out.inner else out;
      ImageGrows(sc, sc', t.elem, bare.of);
    }
  }

  lemma FieldsImageGrows(sc: Scope, sc': Scope, fs: seq<Field>, m: map<string, Output>)
    requires Grown(sc, sc') && FieldsImage(sc, fs, m)
    ensures FieldsImage(sc', fs, m)
  {
    forall name | name in m ensures Image(sc', TypeOf(fs, name), m[name]) {
      ImageGrows(sc, sc', TypeOf(fs, name), m[name]);
    }
  }

  lemma FieldAdded(sc: Scope, fs: seq<Field>, m: map<string, Output>, f: Field, out: Output)
    requires FieldsImage(sc, fs, m) && Image(sc, f.typ, out)
    ensures FieldsImage(sc, fs + [f], m[f.name := out])
  {
    var gs, m' := fs + [f], m[f.name := out];
    assert gs[..|gs| - 1] == fs;
    NamesOfMore(fs, f);
    assert m'.Keys == FieldNames(gs);
  }

  ghost predicate TypesDeclared(schema: Schema, types: map<string, GObject>) {
    forall name | name in types :: IsObject(schema, name) && types[name].name == name
  }

  ghost predicate EnumsDeclared(schema: Schema, enums: map<string, GEnum>) {
    forall name | name in enums ::
      && IsEnum(schema, name) && enums[name].name == name
      && enums[name].values == set v | v in schema[name].values
  }

  /** The sequence lists every name of the set, once. */
  ghost predicate OnceEach(built: seq<string>, names: set<string>) {
    && (forall name :: name in built <==> name in names)
    && (forall x, y | 0 <= x < y < |built| :: built[x] != built[y])
  }

  lemma BuiltOnce(built: seq<string>, names: set<string>, name: string)
    requires OnceEach(built, names) && name !in names
    ensures OnceEach(built + [name], names + {name})
  {
  }

  /** The object types still to be built. */
  ghost function Unseen(schema: Schema, seen: set<string>): set<string> {
    set name | name in schema.Keys && IsObject(schema, name) && name !in seen
  }

  lemma UnseenShrinks(schema: Schema, seen: set<string>, name: string)
    requires IsObject(schema, name) && name !in seen
    ensures Unseen(schema, seen + {name}) < Unseen(schema, seen)
  {
    assert name in Unseen(schema, seen);
  }

  lemma UnseenMonotone(schema: Schema, seen: set<string>, more: set<string>)
    requires seen <= more
    ensures Unseen(schema, more) <= Unseen(schema, seen)
  {
  }

  // ----- Types as the (possibly infinite) trees they stand for, cut at a depth -----

  datatype Tree =
    | Leaf(s: string)
    | EnumTree(name: string, values: set<string>)
    | ObjectTree(name: string, fields: map<string, Tree>)
    | ListTree(of: Tree)
    | NonNullTree(inner: Tree)
    | Cut

  /** The type as the schema declares it, with n objects opened along every path. */
  ghost function SchemaTree(schema: Schema, t: TypeRef, n: nat): Tree
    decreases n, t, 1
  {
    if t.nonNull then NonNullTree(BareTree(schema, t, n)) else BareTree(schema, t, n)
  }

  ghost function BareTree(schema: Schema, t: TypeRef, n: nat): Tree
    decreases n, t, 0
  {
    match t
    case ListOf(elem, _) => ListTree(SchemaTree(schema, elem, n))
    case Named(name, _) =>
      if IsBuiltin(name) then Leaf(Builtin(name))
      else if IsEnum(schema, name) then EnumTree(name, set v | v in schema[name].values)
      else if !IsObject(schema, name) then Leaf("String")
      else if n == 0 then Cut
      else
        var fs := schema[name].fields;
        ObjectTree(name, map f | f in FieldNames(fs) :: SchemaTree(schema, TypeOf(fs, f), n - 1))
  }

  /** The five scalars of the language by name, in any schema; an ID is a string to the mapper. */
  lemma ScalarTrees(schema: Schema, n: nat)
    ensures SchemaTree(schema, Named("String", false), n) == Leaf("String")
    ensures SchemaTree(schema, Named("ID", false), n) == Leaf("String")
    ensures SchemaTree(schema, Named("Int", false), n) == Leaf("Int")
    ensures SchemaTree(schema, Named("Float", false), n) == Leaf("Float")
    ensures SchemaTree(schema, Named("Boolean", false), n) == Leaf("Boolean")
  {
  }

  // ----- The manager -----

  class Manager {
    const schema: Schema
    var typeCache: map<string, GObject>
    var enumCache: map<string, GEnum>
    ghost var built: seq<string>   // the object types built so far, in order

    constructor (schema: Schema)
      ensures this.schema == schema && Valid({}) && typeCache == map[]
    {
      this.schema, typeCache, enumCache, built := schema, map[], map[], [];
    }

    ghost function Now(): Scope
      reads this
    {
      Scope(schema, typeCache, enumCache)
    }

    /** The caches hold only what the schema declares, and each object was built once. */
    ghost predicate Declared()
      reads this
    {
      && TypesDeclared(schema, typeCache) && EnumsDeclared(schema, enumCache)
      && OnceEach(built, typeCache.Keys)
    }

    /** Every cached object outside open has all its fields. */
    ghost predicate Filled(open: set<string>)
      requires Declared()
      reads this, typeCache.Values
    {
      forall name | name in typeCache && name !in open ::
        FieldsImage(Now(), schema[name].fields, typeCache[name].fields)
    }

    ghost predicate Valid(open: set<string>)
      reads this, typeCache.Values
    {
      Declared() && open <= typeCache.Keys && Filled(open)
    }

    ghost function Uncached(): set<string>
      reads this
    {
      Unseen(schema, typeCache.Keys)
    }

    lemma FilledGrows(sc: Scope, open: set<string>)
      requires Declared() && Grown(sc, Now()) && sc.schema == schema
      requires forall name | name in sc.types :: IsObject(schema, name)
      requires forall name | name in sc.types && name !in open ::
                FieldsImage(sc, schema[name].fields, sc.types[name].fields)
      ensures forall name | name in sc.types && name !in open ::
              FieldsImage(Now(), schema[name].fields, sc.types[name].fields)
    {
      forall name | name in sc.types && name !in open
        ensures FieldsImage(Now(), schema[name].fields, sc.types[name].fields)
      {
        FieldsImageGrows(sc, Now(), schema[name].fields, sc.types[name].fields);
      }
    }

    method GetEnum(name: string, ghost open: set<string>) returns (e: GEnum)
      requires Valid(open) && IsEnum(schema, name)
      modifies `enumCache
      ensures Valid(open) && Grown(old(Now()), Now()) && name in enumCache && enumCache[name] == e
    {
      if name in enumCache {
        return enumCache[name];
      }
      var values: set<string> := {};
      var declared := schema[name].values;
      for i := 0 to |declared|
        invariant values == set v | v in declared[..i]
      {
        assert declared[..i + 1] == declared[..i] + [declared[i]];
        values := values + {declared[i]};
      }
      assert declared[..|declared|] == declared;
      e := new GEnum(name, values);
      ghost var before := Now();
      enumCache := enumCache[name := e];
      FilledGrows(before, open);
    }

    /** mapType. */
    method MapType(t: TypeRef, ghost open: set<string>) returns (out: Output)
      requires Valid(open)
      modifies `typeCache, `enumCache, `built
      ensures Valid(open) && Grown(old(Now()), Now())
      ensures Image(Now(), t, out)
      decreases Uncached(), Height(t)
    {
      match t {
        case ListOf(elem, _) =>
          var inner := MapType(elem, open);
          out := List(inner);
        case Named(name, _) =>
          if name in typeCache {
            out := ObjectRef(typeCache[name]);
          } else {
            out := GetCoreOutputType(name, open);
          }
      }
      assert Bare(Now(), t, out);
      if t.nonNull {
        out := NonNull(out);
      }
    }

    method GetCoreOutputType(name: string, ghost open: set<string>) returns (out: Output)
      requires Valid(open) && name !in typeCache
      modifies `typeCache, `enumCache, `built
      ensures Valid(open) && Grown(old(Now()), Now())
      ensures CoreImage(Now(), name, out)
      decreases Uncached(), 1
    {
      if name == "String" || name == "ID" {
        out := Scalar("String");
      } else if name == "Int" || name == "Float" || name == "Boolean" {
        out := Scalar(name);
      } else {
        out := GetCustomOutputType(name, open);
      }
    }

    method GetCustomOutputType(name: string, ghost open: set<string>) returns (out: Output)
      requires Valid(open) && name !in typeCache && !IsBuiltin(name)
      modifies `typeCache, `enumCache, `built
      ensures Valid(open) && Grown(old(Now()), Now())
      ensures CoreImage(Now(), name, out)
      decreases Uncached(), 0
    {
      if name in schema && schema[name].Enum? {
        var e := GetEnum(name, open);
        return EnumRef(e);
      }
      if name !in schema || !schema[name].Object? {
        return Scalar("String");
      }
      var obj := Open(name, open);
      FillFields(obj, open + {name});
      out := ObjectRef(obj);
    }

    /** An object is cached before any of its fields, so that a cycle back to it finds it. */
    method Open(name: string, ghost open: set<string>) returns (obj: GObject)
      requires Valid(open) && name !in typeCache && IsObject(schema, name)
      modifies `typeCache, `built
      ensures Valid(open + {name}) && Grown(old(Now()), Now()) && fresh(obj)
      ensures typeCache == old(typeCache)[name := obj] && obj.name == name && obj.fields == map[]
      ensures Uncached() < old(Uncached())
    {
      hide FieldsImage, Unseen, EnumsDeclared, OnceEach;
      obj := new GObject(name);
      ghost var before := Now();
      UnseenShrinks(schema, typeCache.Keys, name);
      BuiltOnce(built, typeCache.Keys, name);
      typeCache, built := typeCache[name := obj], built + [name];
      assert typeCache.Keys == before.types.Keys + {name};
      FilledGrows(before, open);
    }

    /** The loop that adds the fields; the caches may grow under it. */
    method FillFields(obj: GObject, ghost open: set<string>)
      requires Valid(open) && obj.name in open
      requires obj.name in typeCache && typeCache[obj.name] == obj && obj.fields == map[]
      modifies `typeCache, `enumCache, `built, obj
      ensures Valid(open - {obj.name}) && Grown(old(Now()), Now())
      decreases Uncached()
    {
      hide Unseen, EnumsDeclared, OnceEach;
      var fs := schema[obj.name].fields;
      for i := 0 to |fs|
        invariant Valid(open) && Grown(old(Now()), Now())
        invariant FieldsImage(Now(), fs[..i], obj.fields)
      {
        UnseenMonotone(schema, old(typeCache.Keys), typeCache.Keys);
        AddField(obj, fs[..i], fs[i], open);
        assert fs[..i + 1] == fs[..i] + [fs[i]];
      }
      assert fs[..|fs|] == fs;
    }

    method AddField(obj: GObject, ghost done: seq<Field>, f: Field, ghost open: set<string>)
      requires Valid(open) && obj.name in open && obj.name in typeCache && typeCache[obj.name] == obj
      requires FieldsImage(Now(), done, obj.fields)
      modifies `typeCache, `enumCache, `built, obj
      ensures Valid(open) && Grown(old(Now()), Now())
      ensures FieldsImage(Now(), done + [f], obj.fields)
      decreases Uncached(), Height(f.typ) + 1
    {
      ghost var sc := Now();
      var typ := MapType(f.typ, open);
      FieldsImageGrows(sc, Now(), done, obj.fields);
      FieldAdded(Now(), done, obj.fields, f, typ);
      obj.fields := obj.fields[f.name := typ];
    }

    /** The type as graphql-go will walk it, through the mutable objects. */
    ghost function OutputTree(out: Output, n: nat): Tree
      reads this, typeCache.Values
      decreases n, out
    {
      match out
      case Scalar(s) => Leaf(s)
      case EnumRef(e) => EnumTree(e.name, e.values)
      case List(of) => ListTree(OutputTree(of, n))
      case NonNull(inner) => NonNullTree(OutputTree(inner, n))
      case ObjectRef(o) =>
        if n == 0 || o !in typeCache.Values then Cut
        else ObjectTree(o.name, map f | f in o.fields :: OutputTree(o.fields[f], n - 1))
    }

    /**
     The mapped type means what the schema type means: whatever the cycles, the two unfold to the
     same tree to every depth.
     */
    lemma {:induction false} SameTree(t: TypeRef, out: Output, n: nat)
      requires Valid({}) && Image(Now(), t, out)
      ensures OutputTree(out, n) == SchemaTree(schema, t, n)
      decreases n, 1, t, 1
    {
      SameBareTree(t, if t.nonNull then out.inner else out, n);
    }

    lemma {:induction false} SameBareTree(t: TypeRef, out: Output, n: nat)
      requires Valid({}) && Bare(Now(), t, out)
      ensures OutputTree(out, n) == BareTree(schema, t, n)
      decreases n, 1, t, 0
    {
      match t
      case ListOf(elem, _) =>
        SameTree(elem, out.of, n);
      case Named(name, _) =>
        if IsObject(schema, name) && n > 0 { SameObjectTree(name, n); }
    }

    lemma {:induction false} SameObjectTree(name: string, n: nat)
      requires Valid({}) && IsObject(schema, name) && name in typeCache && n > 0
      ensures OutputTree(ObjectRef(typeCache[name]), n) == BareTree(schema, Named(name, false), n)
      decreases n, 0
    {
      var o, fs := typeCache[name], schema[name].fields;
      assert FieldsImage(Now(), fs, o.fields);
      forall f | f in o.fields ensures OutputTree(o.fields[f], n - 1) == SchemaTree(schema, TypeOf(fs, f), n - 1) {
        SameTree(TypeOf(fs, f), o.fields[f], n - 1);
      }
    }

    // ----- The root object -----

    /** buildFields for the root type, without the arguments: not ok when a resolver is missing. */
    method BuildFields(fields: seq<Field>, handlers: set<string>) returns (ok: bool, mapped: map<string, Output>)
      requires Valid({})
      modifies `typeCache, `enumCache, `built
      ensures Valid({}) && Grown(old(Now()), Now())
      ensures ok <==> forall k | 0 <= k < |fields| :: fields[k].name in handlers || "__" <= fields[k].name
      ensures ok ==> forall name :: name in mapped <==> name in FieldNames(fields) && name in handlers
      ensures ok ==> forall name | name in mapped && name in FieldNames(fields) ::
                Image(Now(), TypeOf(fields, name), mapped[name])
    {
      hide OnceEach, EnumsDeclared;
      mapped := map[];
      for i := 0 to |fields|
        invariant Valid({}) && Grown(old(Now()), Now())
        invariant forall k | 0 <= k < i :: fields[k].name in handlers || Internal(fields[k].name)
        invariant FieldsImage(Now(), Kept(fields[..i], handlers), mapped)
      {
        assert fields[..i + 1][..i] == fields[..i];
        assert Kept(fields[..i + 1], handlers) ==
               Kept(fields[..i], handlers) + if fields[i].name in handlers then [fields[i]] else [];
        if fields[i].name !in handlers {
          if Internal(fields[i].name) {
            assert Kept(fields[..i + 1], handlers) == Kept(fields[..i], handlers);
            continue;
          }
          return false, map[];
        }
        ghost var sc := Now();
        var typ := MapType(fields[i].typ, {});
        FieldsImageGrows(sc, Now(), Kept(fields[..i], handlers), mapped);
        FieldAdded(Now(), Kept(fields[..i], handlers), mapped, fields[i], typ);
        mapped := mapped[fields[i].name := typ];
      }
      assert fields[..|fields|] == fields;
      KeptFields(fields, handlers);
      ok := true;
    }
  }

  predicate Internal(name: string) {
    |name| >= 2 && name[0] == '_' && name[1] == '_'
  }

  /** Leaving out the fields without a resolver changes nothing for the others. */
  lemma {:induction false} KeptFields(fields: seq<Field>, handlers: set<string>)
    ensures forall name ::
              name in FieldNames(Kept(fields, handlers)) <==> name in FieldNames(fields) && name in handlers
    ensures forall name | name in FieldNames(Kept(fields, handlers)) && name in FieldNames(fields) ::
              TypeOf(Kept(fields, handlers), name) == TypeOf(fields, name)
  {
    if fields != [] {
      var front, f := fields[..|fields| - 1], fields[|fields| - 1];
      KeptFields(front, handlers);
      assert fields == front + [f];
      NamesOfMore(front, f);
      var kept := Kept(front, handlers);
      NamesOfMore(kept, f);
      if f.name in handlers { assert (kept + [f])[..|kept|] == kept; } else { assert kept + [] == kept; }
    }
  }

  lemma NamesOfMore(fs: seq<Field>, f: Field)
    ensures forall name :: name in FieldNames(fs + [f]) <==> name in FieldNames(fs) || name == f.name
  {
    forall name ensures name in FieldNames(fs + [f]) <==> name in FieldNames(fs) || name == f.name {
      if name in FieldNames(fs) {
        var k :| 0 <= k < |fs| && fs[k].name == name;
        assert (fs + [f])[k].name == name;
      }
      assert (fs + [f])[|fs|].name == f.name;
    }
  }

  /** The root fields that have a resolver. */
  function Kept(fields: seq<Field>, handlers: set<string>): seq<Field> {
    if fields == [] then []
    else
      var f := fields[|fields| - 1];
      Kept(fields[..|fields| - 1], handlers) + if f.name in handlers then [f] else []
  }
}
