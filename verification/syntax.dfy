/** The TypeScript the generator emits, as the nodes it hands to the printer. The
    printer itself lies outside the model; these nodes are what it prints. */
module Syntax {

  /** A type expression. `Literal` is an inline `{ ... }` type; `Unexpanded` marks an
      inline message type the model did not unfold because its depth bound ran out. */
  datatype TypeExpr =
    | Ref(name: string)
    | Union(literals: seq<string>)
    | Literal(members: seq<Member>)
    | ArrayOf(element: TypeExpr)
    | Unexpanded

  /** A property signature `name?: type` with its `//` comments, in the order the
      printer emits them. */
  datatype Member = Member(name: string, optional: bool, typ: TypeExpr, leading: seq<string>, trailing: seq<string>)

  /** A top-level statement of a generated file. `Bare` is a type printed on its own,
      which happens to an enum whose generated name is empty. */
  datatype Decl =
    | Import(names: seq<string>, specifier: string)
    | Interface(name: string, members: seq<Member>)
    | EnumDecl(name: string, entries: seq<(string, string)>)
    | TypeAlias(name: string, typ: TypeExpr)
    | Bare(typ: TypeExpr)
    | Comment(text: string)
    | Spacer
    | Export(specifier: string)
}
