/** The resolved protobuf reflection tree, as an arena: node 0 is the root, and every
    other node names its parent by an index smaller than its own. The back-references
    of the reflection objects become indices, and recursion down the tree terminates. */
module Schema {
  import opened Maybe

  /** A oneof group: its name and the ids of its fields in declaration order. */
  datatype OneOf = OneOf(name: string, fieldIds: seq<int>)

  /** A message field. `keyType` is present exactly for map fields, whose `typeName` is
      then the value type; `resolved` is the node the type name resolved to, if any. */
  datatype Field = Field(
    name: string,
    typeName: string,
    resolved: Option<nat>,
    repeated: bool,
    keyType: Option<string>,
    required: bool,
    optional: bool,
    id: int,
    partOf: Option<OneOf>,
    proto3Optional: bool)

  datatype Kind =
    | Root
    | Namespace
    | Message(fields: seq<Field>)
    | Enum(values: seq<string>)
    | Service

  /** One reflection object: its name, kind, parent, source file and nested objects in
      declaration order. */
  datatype Node = Node(name: string, kind: Kind, parent: Option<nat>, filename: Option<string>, nested: seq<nat>)

  type Arena = seq<Node>

  predicate IsType(a: Arena, i: nat) {
    i < |a| && (a[i].kind.Message? || a[i].kind.Enum?)
  }

  /** A resolved field type is a message or an enum, and a oneof has at least one field. */
  predicate FieldValid(a: Arena, f: Field) {
    && (f.resolved.Some? ==> IsType(a, f.resolved.value))
    && (f.partOf.Some? ==> |f.partOf.value.fieldIds| > 0)
  }

  /** The shape protobufjs guarantees after `resolveAll`: a root at 0 and nowhere else,
      parents before children, nested lists and parent links agreeing, and resolved
      field types that are messages or enums. */
  predicate ValidArena(a: Arena) {
    && |a| > 0
    && a[0].kind.Root? && a[0].parent.None? && a[0].name == ""
    && (forall i :: 0 < i < |a| ==> a[i].parent.Some? && a[i].parent.value < i && !a[i].kind.Root?)
    && (forall i, k :: 0 <= i < |a| && 0 <= k < |a[i].nested| ==>
          i < a[i].nested[k] < |a| && a[a[i].nested[k]].parent == Some(i))
    && (forall i :: 0 < i < |a| ==> i in a[a[i].parent.value].nested)
    && (forall i, k :: 0 <= i < |a| && a[i].kind.Message? && 0 <= k < |a[i].kind.fields| ==>
          FieldValid(a, a[i].kind.fields[k]))
  }

  /** Whether the node's parent is a message: such types are nested and are never
      generated on their own. */
  predicate ParentIsMessage(a: Arena, i: nat)
    requires i < |a|
  {
    match a[i].parent
    case Some(p) => p < |a| && a[p].kind.Message?
    case None => false
  }

  /** The proper ancestors of node `i`, outermost first, root included. */
  function Ancestors(a: Arena, i: nat): (r: seq<nat>)
    requires ValidArena(a) && i < |a|
    ensures forall k :: 0 <= k < |r| ==> r[k] < i
    ensures i > 0 ==> |r| > 0 && r[|r| - 1] == a[i].parent.value && r[0] == 0
    ensures i == 0 ==> r == []
    decreases i
  {
    if i == 0 then [] else
    var p := a[i].parent.value;
    Ancestors(a, p) + [p]
  }

  /** Names of a list of nodes. */
  function Names(a: Arena, ns: seq<nat>): (r: seq<string>)
    requires forall k :: 0 <= k < |ns| ==> ns[k] < |a|
    ensures |r| == |ns| && forall k :: 0 <= k < |ns| ==> r[k] == a[ns[k]].name
  {
    seq(|ns|, k requires 0 <= k < |ns| => a[ns[k]].name)
  }
}
