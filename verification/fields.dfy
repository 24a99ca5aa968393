/** How a message field becomes a TypeScript property: the well-known type table, the
    lookup of generated types, inline enums and messages, and the oneof comments. */
module Fields {
  import opened Maybe
  import opened Assoc
  import opened Text
  import opened Schema
  import opened Settings
  import opened Naming
  import opened Syntax

  /** `CachedType`: the file a type goes to, its generated name, and the type itself. */
  datatype CachedType = CachedType(path: string, name: string, node: nat)

  /** `typeCache`, keyed by `buildTypeCacheKey`. */
  type Cache = Assoc<CachedType>

  /** One call of the import adder: a named export and the file it comes from. */
  type Request = (string, string)

  /** The generator's state while it emits declarations. */
  datatype Generator = Generator(cfg: Config, ext: Externals, a: Arena, cache: Cache)

  predicate GenValid(g: Generator) {
    ValidArena(g.a) && ConfigValid(g.cfg)
  }

  /** The JSON mapping of protobuf scalars and well-known types. */
  const WellKnown: Assoc<string> := [
    ("bool", "boolean"),
    ("double", "number"),
    ("float", "number"),
    ("int32", "number"),
    ("uint32", "number"),
    ("sint32", "number"),
    ("fixed32", "number"),
    ("sfixed32", "number"),
    ("string", "string"),
    ("int64", "string"),
    ("fixed64", "string"),
    ("uint64", "string"),
    ("sint64", "string"),
    ("sfixed64", "string"),
    ("bytes", "string"),
    ("google.protobuf.Timestamp", "string"),
    ("google.protobuf.Duration", "string"),
    ("google.protobuf.FieldMask", "string"),
    ("google.protobuf.BoolValue", "boolean | null"),
    ("google.protobuf.StringValue", "string | null"),
    ("google.protobuf.Int64Value", "string | null"),
    ("google.protobuf.UInt64Value", "string | null"),
    ("google.protobuf.BytesValue", "string | null"),
    ("google.protobuf.Int32Value", "number | null"),
    ("google.protobuf.UInt32Value", "number | null"),
    ("google.protobuf.FloatValue", "number | null"),
    ("google.protobuf.DoubleValue", "number | null"),
    ("google.protobuf.NullValue", "null"),
    ("google.protobuf.Empty", "{}"),
    ("google.protobuf.ListValue", "any[]"),
    ("google.protobuf.Struct", "Record<string, any>"),
    ("google.protobuf.Any", "{ '@type': string, value: any }")
  ]

  /** `wellKnownMappings`: the table with the configured overrides spread over it. */
  function Mappings(cfg: Config): Assoc<string> {
    PutAll(WellKnown, cfg.generatedTypeOverrides)
  }

  /** An override replaces the table's entry; every other type name keeps it. */
  lemma OverridesWin(cfg: Config, typeName: string)
    requires ConfigValid(cfg)
    ensures Get(Mappings(cfg), typeName)
         == if typeName in Keys(cfg.generatedTypeOverrides) then Get(cfg.generatedTypeOverrides, typeName)
            else Get(WellKnown, typeName)
  {
    PutAllGet(WellKnown, cfg.generatedTypeOverrides, typeName);
  }

  /** Every entry of the table is a non-empty type. */
  lemma WellKnownTruthy()
    ensures forall i :: 0 <= i < |WellKnown| ==> WellKnown[i].1 != ""
  {
  }

  /** A type name of the table that no override names is always mapped, so such a
      field never causes an import. */
  lemma WellKnownMapped(cfg: Config, typeName: string)
    requires ConfigValid(cfg)
    requires typeName in Keys(WellKnown) && typeName !in Keys(cfg.generatedTypeOverrides)
    ensures Truthy(Get(Mappings(cfg), typeName))
  {
    OverridesWin(cfg, typeName);
    WellKnownTruthy();
    var i := Find(WellKnown, typeName).value;
    assert Get(WellKnown, typeName) == Some(WellKnown[i].1);
  }

  /** The cache entry of type `t`, if it was collected. */
  function CachedFor(g: Generator, t: nat): Option<CachedType>
    requires ValidArena(g.a) && t < |g.a|
  {
    Get(g.cache, CacheKey(g.ext, g.a, t))
  }

  /** The (name, file) pairs the cache can offer to an import. */
  function Offers(cache: Cache): (r: seq<Request>)
    ensures |r| == |cache|
    ensures forall i :: 0 <= i < |cache| ==> r[i] == (cache[i].1.name, cache[i].1.path)
  {
    seq(|cache|, i requires 0 <= i < |cache| => (cache[i].1.name, cache[i].1.path))
  }

  predicate Offered(g: Generator, reqs: seq<Request>) {
    forall k :: 0 <= k < |reqs| ==> reqs[k] in Offers(g.cache)
  }

  lemma OfferedConcat(g: Generator, x: seq<Request>, y: seq<Request>)
    requires Offered(g, x) && Offered(g, y)
    ensures Offered(g, x + y)
  {
  }

  lemma CachedIsOffered(g: Generator, t: nat)
    requires ValidArena(g.a) && t < |g.a| && CachedFor(g, t).Some?
    ensures var c := CachedFor(g, t).value; (c.name, c.path) in Offers(g.cache)
  {
    var i := Find(g.cache, CacheKey(g.ext, g.a, t)).value;
    assert Offers(g.cache)[i] == (g.cache[i].1.name, g.cache[i].1.path);
  }

  /** `getFieldTypeMapping`: a truthy table entry for the type name wins; otherwise a
      collected resolved type is imported and referenced by its generated name. */
  function FieldTypeMapping(g: Generator, typeName: string, resolved: Option<nat>): (r: (Option<string>, seq<Request>))
    requires ValidArena(g.a) && (resolved.Some? ==> resolved.value < |g.a|)
    ensures Offered(g, r.1)
    ensures |r.1| == 1 <==> !Truthy(Get(Mappings(g.cfg), typeName)) && resolved.Some? && CachedFor(g, resolved.value).Some?
    ensures |r.1| == 1 ==> r.0 == Some(r.1[0].0) && CachedFor(g, resolved.value) == Some(CachedType(r.1[0].1, r.1[0].0, CachedFor(g, resolved.value).value.node))
    ensures |r.1| == 0 ==> r.0 == (if Truthy(Get(Mappings(g.cfg), typeName)) then Get(Mappings(g.cfg), typeName) else None)
    ensures |r.1| <= 1
  {
    var known := Get(Mappings(g.cfg), typeName);
    if Truthy(known) then (known, [])
    else if resolved.None? then (None, [])
    else match CachedFor(g, resolved.value)
      case Some(c) =>
        CachedIsOffered(g, resolved.value);
        (Some(c.name), [(c.name, c.path)])
      case None => (None, [])
  }

  /** `generateEnumDefinition(e)` with no name: the union of the value names. */
  function EnumUnion(a: Arena, e: nat): (r: TypeExpr)
    requires e < |a| && a[e].kind.Enum?
    ensures r.Union? && r.literals == a[e].kind.values
  {
    Union(a[e].kind.values)
  }

  /** A resolved enum that was not collected is written inline. */
  predicate InlineEnum(g: Generator, f: Field)
    requires ValidArena(g.a) && FieldValid(g.a, f)
  {
    f.resolved.Some? && g.a[f.resolved.value].kind.Enum? && CachedFor(g, f.resolved.value).None?
  }

  /** The mapped type of a field, a map field's `Record<K, V>` included. The key is
      looked up as a copy of the field with the key type as its type name, so the copy
      still carries the value's resolved type; the value's import comes first. */
  function MappedType(g: Generator, f: Field): (r: (Option<string>, seq<Request>))
    requires ValidArena(g.a) && FieldValid(g.a, f)
    ensures Offered(g, r.1)
  {
    var (value, vreqs) := FieldTypeMapping(g, f.typeName, f.resolved);
    match f.keyType
    case None => (value, vreqs)
    case Some(kt) =>
      var (key, kreqs) := FieldTypeMapping(g, kt, f.resolved);
      OfferedConcat(g, vreqs, kreqs);
      (Some("Record<" + Interpolate(key) + ", " + Interpolate(value) + ">"), vreqs + kreqs)
  }

  /** `convertFieldType` before the `repeated` wrapper. Inline message types unfold to
      depth `fuel`. */
  function BaseType(g: Generator, f: Field, fuel: nat): (r: (TypeExpr, seq<Request>))
    requires GenValid(g) && FieldValid(g.a, f)
    ensures Offered(g, r.1)
    decreases fuel, 0, 0
  {
    if InlineEnum(g, f) then
      (EnumUnion(g.a, f.resolved.value), [])
    else
      var (mapped, reqs) := MappedType(g, f);
      if !Truthy(mapped) && f.resolved.Some? && g.a[f.resolved.value].kind.Message? then
        if fuel == 0 then (Unexpanded, reqs)
        else
          var t := f.resolved.value;
          FieldsOfMessage(g.a, t);
          var (ms, more) := FieldMembers(g, g.a[t].kind.fields, fuel - 1);
          OfferedConcat(g, reqs, more);
          (Literal(ms), reqs + more)
      else
        (Ref(if Truthy(mapped) then mapped.value else "any"), reqs)
  }

  /** `convertFieldType`: the base type, as an array when the field is repeated. */
  function ConvertFieldType(g: Generator, f: Field, fuel: nat): (r: (TypeExpr, seq<Request>))
    requires GenValid(g) && FieldValid(g.a, f)
    ensures Offered(g, r.1)
    ensures r.0.ArrayOf? <== f.repeated
    decreases fuel, 1, 0
  {
    var (base, reqs) := BaseType(g, f, fuel);
    (if f.repeated then ArrayOf(base) else base, reqs)
  }

  /** The oneof comments of a field: `start` on the group's first field, `end` on its
      last, none when the field is a proto3 `optional` (which protobuf.js also places
      in a oneof). */
  function StartComment(f: Field): seq<string> {
    if f.partOf.Some? && !f.proto3Optional && |f.partOf.value.fieldIds| > 0 && f.id == f.partOf.value.fieldIds[0]
    then [" start oneof \"" + f.partOf.value.name + "\""] else []
  }

  function EndComment(f: Field): seq<string> {
    if f.partOf.Some? && !f.proto3Optional && |f.partOf.value.fieldIds| > 0
       && f.id == f.partOf.value.fieldIds[|f.partOf.value.fieldIds| - 1]
    then [" end oneof \"" + f.partOf.value.name + "\""] else []
  }

  /** `generateFieldMember`. */
  function FieldMember(g: Generator, f: Field, fuel: nat): (r: (Member, seq<Request>))
    requires GenValid(g) && FieldValid(g.a, f)
    ensures Offered(g, r.1)
    ensures r.0.name == g.ext.camelCase(f.name)
    ensures r.0.optional <==> f.optional || !f.required
    ensures (r.0.typ, r.1) == ConvertFieldType(g, f, fuel)
    decreases fuel, 2, 0
  {
    var (typ, reqs) := ConvertFieldType(g, f, fuel);
    (Member(g.ext.camelCase(f.name), f.optional || !f.required, typ, StartComment(f), EndComment(f)), reqs)
  }

  predicate AllValid(a: Arena, fs: seq<Field>) {
    forall k :: 0 <= k < |fs| ==> FieldValid(a, fs[k])
  }

  lemma FieldsOfMessage(a: Arena, t: nat)
    requires ValidArena(a) && t < |a| && a[t].kind.Message?
    ensures AllValid(a, a[t].kind.fields)
  {
  }

  /** The members of a list of fields, in order, with their imports in call order. */
  function FieldMembers(g: Generator, fs: seq<Field>, fuel: nat): (r: (seq<Member>, seq<Request>))
    requires GenValid(g) && AllValid(g.a, fs)
    ensures Offered(g, r.1)
    ensures |r.0| == |fs|
    decreases fuel, 3, |fs|
  {
    if |fs| == 0 then ([], [])
    else
      var (m, reqs) := FieldMember(g, fs[0], fuel);
      var (ms, more) := FieldMembers(g, fs[1..], fuel);
      OfferedConcat(g, reqs, more);
      ([m] + ms, reqs + more)
  }

  /** `generateNestedType`: an inline object type of a message's fields. */
  function NestedType(g: Generator, t: nat, fuel: nat): (r: (TypeExpr, seq<Request>))
    requires GenValid(g) && t < |g.a| && g.a[t].kind.Message?
    ensures Offered(g, r.1)
    ensures r.0.Literal? && |r.0.members| == |g.a[t].kind.fields|
  {
    FieldsOfMessage(g.a, t);
    var (ms, reqs) := FieldMembers(g, g.a[t].kind.fields, fuel);
    (Literal(ms), reqs)
  }

  /** The `//` comment configured for a field's type name, if truthy. */
  function TypeComment(cfg: Config, typeName: string): seq<string> {
    var c := Get(cfg.generatedTypeComments, typeName);
    if Truthy(c) then [" " + c.value] else []
  }

  /** The members of a top-level interface: each field's member, with the comment
      configured for the field's type name after its oneof comment. */
  function InterfaceMembers(g: Generator, fs: seq<Field>, fuel: nat): (r: (seq<Member>, seq<Request>))
    requires GenValid(g) && AllValid(g.a, fs)
    ensures Offered(g, r.1)
    ensures |r.0| == |fs|
  {
    if |fs| == 0 then ([], [])
    else
      var (m, reqs) := FieldMember(g, fs[0], fuel);
      var (ms, more) := InterfaceMembers(g, fs[1..], fuel);
      OfferedConcat(g, reqs, more);
      ([m.(leading := m.leading + TypeComment(g.cfg, fs[0].typeName))] + ms, reqs + more)
  }

  /** What `generateEnumDefinition` returns: a declaration, or a type to inline. */
  datatype EnumOut = Declared(decl: Decl) | Inline(typ: TypeExpr)

  /** The entries of an `enum` declaration: each value under its de-stuttered key. */
  function EnumEntries(ext: Externals, values: seq<string>, enumName: string): (r: seq<(string, string)>)
    ensures |r| == |values|
    ensures forall k :: 0 <= k < |values| ==> r[k].1 == values[k]
    ensures forall k :: 0 <= k < |values| ==> r[k].0 == EnumMemberKey(ext, values[k], enumName)
  {
    seq(|values|, k requires 0 <= k < |values| => (EnumMemberKey(ext, values[k], enumName), values[k]))
  }

  /** `generateEnumDefinition(e, name)`. */
  function EnumDefinition(g: Generator, e: nat, name: Option<string>): (r: EnumOut)
    requires e < |g.a| && g.a[e].kind.Enum?
  {
    var values := g.a[e].kind.values;
    if g.cfg.generateEnumType == EnumDeclaration && Truthy(name) then
      Declared(EnumDecl(name.value, EnumEntries(g.ext, values, g.a[e].name)))
    else if !Truthy(name) then
      Inline(Union(values))
    else
      Declared(TypeAlias(name.value, Union(values)))
  }

  /** The value names an enum's output lists, whichever form it takes. */
  function ListedValues(out: EnumOut): seq<string> {
    match out
    case Declared(EnumDecl(_, entries)) => seq(|entries|, k requires 0 <= k < |entries| => entries[k].1)
    case Declared(TypeAlias(_, Union(vs))) => vs
    case Inline(Union(vs)) => vs
    case _ => []
  }

  /** `'enum'` mode with a name gives an enum declaration, no name gives an inline
      union, anything else a type alias; every form lists the enum's values in order. */
  lemma EnumDefinitionForms(g: Generator, e: nat, name: Option<string>)
    requires e < |g.a| && g.a[e].kind.Enum?
    ensures var r := EnumDefinition(g, e, name);
      && (r.Declared? && r.decl.EnumDecl? <==> g.cfg.generateEnumType == EnumDeclaration && Truthy(name))
      && (r.Inline? <==> !Truthy(name))
      && (r.Declared? && r.decl.TypeAlias? <==> g.cfg.generateEnumType != EnumDeclaration && Truthy(name))
      && ListedValues(r) == g.a[e].kind.values
  {
    var r := EnumDefinition(g, e, name);
    var values := g.a[e].kind.values;
    if r.Declared? && r.decl.EnumDecl? {
      var entries := EnumEntries(g.ext, values, g.a[e].name);
      assert ListedValues(r) == seq(|entries|, k requires 0 <= k < |entries| => entries[k].1);
    }
  }

  /** Whether the field is a message field's `repeated` makes no difference but the
      array around the type. */
  lemma RepeatedWraps(g: Generator, f: Field, fuel: nat)
    requires GenValid(g) && FieldValid(g.a, f)
    ensures var single := ConvertFieldType(g, f.(repeated := false), fuel);
            ConvertFieldType(g, f.(repeated := true), fuel) == (ArrayOf(single.0), single.1)
  {
    assert BaseType(g, f.(repeated := false), fuel) == BaseType(g, f.(repeated := true), fuel) by {
      assert f.(repeated := false).(repeated := true) == f.(repeated := true);
      BaseTypeIgnoresRepeated(g, f.(repeated := false), fuel);
    }
  }

  lemma BaseTypeIgnoresRepeated(g: Generator, f: Field, fuel: nat)
    requires GenValid(g) && FieldValid(g.a, f)
    ensures BaseType(g, f, fuel) == BaseType(g, f.(repeated := true), fuel)
  {
    var f' := f.(repeated := true);
    assert InlineEnum(g, f) == InlineEnum(g, f');
    assert MappedType(g, f) == MappedType(g, f');
  }

  /** A resolved enum with no cache entry is written as the union of its values, ahead
      of the table, the overrides and a map field's `Record`. */
  lemma UncachedEnumInline(g: Generator, f: Field, fuel: nat)
    requires GenValid(g) && FieldValid(g.a, f) && InlineEnum(g, f)
    ensures BaseType(g, f, fuel) == (Union(g.a[f.resolved.value].kind.values), [])
  {
  }

  /** A plain field whose type name the table maps is that type, with no import. */
  lemma MappedScalar(g: Generator, f: Field, fuel: nat)
    requires GenValid(g) && FieldValid(g.a, f) && !InlineEnum(g, f) && f.keyType.None?
    requires Truthy(Get(Mappings(g.cfg), f.typeName))
    ensures BaseType(g, f, fuel) == (Ref(Get(Mappings(g.cfg), f.typeName).value), [])
  {
  }

  /** A plain field of a collected type refers to the type's generated name and imports
      it from the type's file. */
  lemma CachedReference(g: Generator, f: Field, fuel: nat)
    requires GenValid(g) && FieldValid(g.a, f) && !InlineEnum(g, f) && f.keyType.None?
    requires !Truthy(Get(Mappings(g.cfg), f.typeName))
    requires f.resolved.Some? && CachedFor(g, f.resolved.value).Some?
    requires CachedFor(g, f.resolved.value).value.name != ""
    ensures var c := CachedFor(g, f.resolved.value).value;
            BaseType(g, f, fuel) == (Ref(c.name), [(c.name, c.path)])
  {
    var (m, reqs) := FieldTypeMapping(g, f.typeName, f.resolved);
    assert |reqs| == 1;
  }

  /** A cached type whose generated name is empty is still requested as an import
      (under the empty name), but the empty name is falsy: the field falls through to
      the nested object type of a message, one level down, and to `any` otherwise. */
  lemma CachedEmptyName(g: Generator, f: Field, fuel: nat)
    requires GenValid(g) && FieldValid(g.a, f) && !InlineEnum(g, f) && f.keyType.None?
    requires !Truthy(Get(Mappings(g.cfg), f.typeName))
    requires f.resolved.Some? && CachedFor(g, f.resolved.value).Some?
    requires CachedFor(g, f.resolved.value).value.name == ""
    ensures var t, path := f.resolved.value, CachedFor(g, f.resolved.value).value.path;
            if !g.a[t].kind.Message? then BaseType(g, f, fuel) == (Ref("any"), [("", path)])
            else if fuel == 0 then BaseType(g, f, fuel) == (Unexpanded, [("", path)])
            else BaseType(g, f, fuel) == (NestedType(g, t, fuel - 1).0, [("", path)] + NestedType(g, t, fuel - 1).1)
  {
    var (m, reqs) := FieldTypeMapping(g, f.typeName, f.resolved);
    assert |reqs| == 1 && m == Some("");
  }

  /** A plain field with an unmapped, unresolved type is `any`. */
  lemma UnknownIsAny(g: Generator, f: Field, fuel: nat)
    requires GenValid(g) && FieldValid(g.a, f) && f.keyType.None? && f.resolved.None?
    requires !Truthy(Get(Mappings(g.cfg), f.typeName))
    ensures BaseType(g, f, fuel) == (Ref("any"), [])
  {
  }

  /** A map field becomes `Record<K, V>`, with `K` and `V` the key's and the value's
      mappings printed as a template literal prints them; the key is looked up with the
      value's resolved type, and its imports follow the value's. */
  lemma MapRecord(g: Generator, f: Field, fuel: nat)
    requires GenValid(g) && FieldValid(g.a, f) && !InlineEnum(g, f) && f.keyType.Some?
    ensures var value := FieldTypeMapping(g, f.typeName, f.resolved);
            var key := FieldTypeMapping(g, f.keyType.value, f.resolved);
            BaseType(g, f, fuel)
            == (Ref("Record<" + Interpolate(key.0) + ", " + Interpolate(value.0) + ">"), value.1 + key.1)
  {
  }

  /** A plain field of a message type that was not collected and is not mapped is the
      message's inline object type, one level down. */
  lemma UncachedMessageInline(g: Generator, f: Field, fuel: nat)
    requires GenValid(g) && FieldValid(g.a, f) && f.keyType.None? && fuel > 0
    requires f.resolved.Some? && g.a[f.resolved.value].kind.Message? && CachedFor(g, f.resolved.value).None?
    requires !Truthy(Get(Mappings(g.cfg), f.typeName))
    ensures BaseType(g, f, fuel) == NestedType(g, f.resolved.value, fuel - 1)
  {
    assert !InlineEnum(g, f);
    var (m, reqs) := FieldTypeMapping(g, f.typeName, f.resolved);
    assert |reqs| == 0 && m == None;
    assert MappedType(g, f) == (None, []);
    var t := f.resolved.value;
    var (ms, more) := FieldMembers(g, g.a[t].kind.fields, fuel - 1);
    assert [] + more == more;
  }

  /** The member of the `k`th field is that field's `generateFieldMember`, whatever comes
      before it. */
  lemma {:induction false} FieldMembersAt(g: Generator, fs: seq<Field>, fuel: nat, k: nat)
    requires GenValid(g) && AllValid(g.a, fs) && k < |fs|
    ensures FieldMembers(g, fs, fuel).0[k] == FieldMember(g, fs[k], fuel).0
    decreases k
  {
    if k > 0 {
      FieldMembersAt(g, fs[1..], fuel, k - 1);
    }
  }

  /** A top-level interface's members are the nested members of the same fields, each
      with its type comment added after the oneof comment, and import the same. */
  lemma {:induction false} InterfaceAddsTypeComments(g: Generator, fs: seq<Field>, fuel: nat)
    requires GenValid(g) && AllValid(g.a, fs)
    ensures InterfaceMembers(g, fs, fuel).1 == FieldMembers(g, fs, fuel).1
    ensures forall k :: 0 <= k < |fs| ==>
      InterfaceMembers(g, fs, fuel).0[k]
      == FieldMembers(g, fs, fuel).0[k].(leading := FieldMembers(g, fs, fuel).0[k].leading + TypeComment(g.cfg, fs[k].typeName))
    decreases |fs|
  {
    if |fs| > 0 {
      InterfaceAddsTypeComments(g, fs[1..], fuel);
      var im := InterfaceMembers(g, fs, fuel).0;
      var nm := FieldMembers(g, fs, fuel).0;
      forall k | 0 <= k < |fs|
        ensures im[k] == nm[k].(leading := nm[k].leading + TypeComment(g.cfg, fs[k].typeName))
      {
        if k > 0 {
          assert im[k] == InterfaceMembers(g, fs[1..], fuel).0[k - 1];
          assert nm[k] == FieldMembers(g, fs[1..], fuel).0[k - 1];
          assert fs[k] == fs[1..][k - 1];
        }
      }
    }
  }

  /** The fields of one oneof group, in the group's order: every one is in the group and
      none is a proto3 `optional`. */
  predicate IsGroup(fs: seq<Field>, o: OneOf) {
    && |fs| == |o.fieldIds| > 0
    && (forall i, j :: 0 <= i < j < |o.fieldIds| ==> o.fieldIds[i] != o.fieldIds[j])
    && forall k :: 0 <= k < |fs| ==> fs[k].partOf == Some(o) && !fs[k].proto3Optional && fs[k].id == o.fieldIds[k]
  }

  /** The group is bracketed: its first member opens it, its last closes it, and no
      member in between carries a oneof comment. */
  lemma GroupBracketed(g: Generator, fs: seq<Field>, o: OneOf, fuel: nat)
    requires GenValid(g) && AllValid(g.a, fs) && IsGroup(fs, o)
    ensures var ms := FieldMembers(g, fs, fuel).0;
      && ms[0].leading == [" start oneof \"" + o.name + "\""]
      && ms[|fs| - 1].trailing == [" end oneof \"" + o.name + "\""]
      && (forall k :: 0 < k < |fs| ==> ms[k].leading == [])
      && (forall k :: 0 <= k < |fs| - 1 ==> ms[k].trailing == [])
  {
    var ms := FieldMembers(g, fs, fuel).0;
    forall k | 0 <= k < |fs|
      ensures ms[k].leading == StartComment(fs[k]) && ms[k].trailing == EndComment(fs[k])
    {
      FieldMembersAt(g, fs, fuel, k);
    }
  }

  /** A proto3 `optional` field carries no oneof comment. */
  lemma Proto3OptionalUnbracketed(g: Generator, f: Field, fuel: nat)
    requires GenValid(g) && FieldValid(g.a, f) && f.proto3Optional
    ensures FieldMember(g, f, fuel).0.leading == [] && FieldMember(g, f, fuel).0.trailing == []
  {
  }
}
