/** `generateTypeDefinitionsByFile`: one output file per generated path, with its header
    comment, its imports and one declaration per collected type, plus the index file. */
module Assemble {
  import opened Maybe
  import opened Assoc
  import opened Seqs
  import opened Text
  import opened Template
  import opened Paths
  import opened Schema
  import opened Settings
  import opened Syntax
  import opened Fields
  import opened Collect

  /** A file to write: where, and the statements the printer prints into it. */
  datatype OutputFile = OutputFile(path: string, decls: seq<Decl>)

  /** The imports of one file: each imported file with its named exports, both in the
      order they were first asked for. */
  type Imports = Assoc<seq<string>>

  /** `addImport(name, path)` while generating `file`: a type of the file itself is not
      imported, and a name is listed once per file. */
  function AddImport(imports: Imports, file: string, req: Request): Imports {
    var (name, path) := req;
    if path == file then imports
    else
      var names := Get(imports, path).GetOr([]);
      Put(imports, path, if name in names then names else names + [name])
  }

  /** The import adder called once per request, in order. */
  function AddImports(imports: Imports, file: string, reqs: seq<Request>): Imports
    decreases |reqs|
  {
    if |reqs| == 0 then imports else AddImports(AddImport(imports, file, reqs[0]), file, reqs[1..])
  }

  /** The requested files other than `file`, in request order, repeats included. */
  function OtherPaths(file: string, reqs: seq<Request>): seq<string>
    decreases |reqs|
  {
    if |reqs| == 0 then []
    else
      var last := reqs[|reqs| - 1];
      OtherPaths(file, reqs[..|reqs| - 1]) + if last.1 != file then [last.1] else []
  }

  /** The names requested from `path`, in request order, repeats included. */
  function NamesFrom(path: string, reqs: seq<Request>): seq<string>
    decreases |reqs|
  {
    if |reqs| == 0 then []
    else
      var last := reqs[|reqs| - 1];
      NamesFrom(path, reqs[..|reqs| - 1]) + if last.1 == path then [last.0] else []
  }

  /** A file is among the requested files exactly when some request names it and it is
      not `file`. */
  lemma {:induction false} OtherPathsHas(file: string, reqs: seq<Request>, p: string)
    ensures p in OtherPaths(file, reqs) <==> p != file && exists name :: (name, p) in reqs
    decreases |reqs|
  {
    if |reqs| > 0 {
      var init, last := reqs[..|reqs| - 1], reqs[|reqs| - 1];
      assert reqs == init + [last];
      OtherPathsHas(file, init, p);
    }
  }

  /** One more request is one more call of the adder. */
  lemma {:induction false} AddImportsSnoc(imports: Imports, file: string, reqs: seq<Request>, r: Request)
    ensures AddImports(imports, file, reqs + [r]) == AddImport(AddImports(imports, file, reqs), file, r)
    decreases |reqs|
  {
    if |reqs| == 0 {
      assert ([] + [r])[1..] == [];
    } else {
      assert (reqs + [r])[0] == reqs[0];
      assert (reqs + [r])[1..] == reqs[1..] + [r];
      AddImportsSnoc(AddImport(imports, file, reqs[0]), file, reqs[1..], r);
    }
  }

  /** `imports` is what the adder gathers from `reqs`: the requested files other than
      `file`, each once, in the order they were first requested, each with the names
      requested from it, each once, in the order they were first requested. */
  predicate Gathered(imports: Imports, file: string, reqs: seq<Request>) {
    && Keys(imports) == FirstSeen(OtherPaths(file, reqs))
    && forall p :: p in Keys(imports) ==> Get(imports, p) == Some(FirstSeen(NamesFrom(p, reqs)))
  }

  /** The order of the imports gathered from no imports. */
  lemma {:induction false} AddImportsOrder(file: string, reqs: seq<Request>)
    ensures Keys(AddImports([], file, reqs)) == FirstSeen(OtherPaths(file, reqs))
    ensures forall p :: p in Keys(AddImports([], file, reqs)) ==>
      Get(AddImports([], file, reqs), p) == Some(FirstSeen(NamesFrom(p, reqs)))
    decreases |reqs|
  {
    if |reqs| > 0 {
      var init, last := reqs[..|reqs| - 1], reqs[|reqs| - 1];
      assert reqs == init + [last];
      AddImportsOrder(file, init);
      AddImportsSnoc([], file, init, last);
      AddImportGathers(AddImports([], file, init), file, init, last);
    }
  }

  /** One more request keeps the imports gathered. */
  lemma AddImportGathers(m: Imports, file: string, init: seq<Request>, r: Request)
    requires Gathered(m, file, init)
    ensures Gathered(AddImport(m, file, r), file, init + [r])
  {
    SnocPaths(file, init, r);
    if r.1 == file {
      assert OtherPaths(file, init + [r]) == OtherPaths(file, init);
      forall q | q in Keys(m) ensures NamesFrom(q, init + [r]) == NamesFrom(q, init) {
        FirstSeenHas(OtherPaths(file, init), q);
        OtherPathsHas(file, init, q);
      }
    } else if r.1 in Keys(m) {
      AddImportKnownKeys(m, file, init, r);
      AddImportKnownNames(m, file, init, r);
    } else {
      AddImportNewKeys(m, file, init, r);
      AddImportNewNames(m, file, init, r);
    }
  }

  lemma AddImportKnownKeys(m: Imports, file: string, init: seq<Request>, r: Request)
    requires Keys(m) == FirstSeen(OtherPaths(file, init)) && r.1 != file && r.1 in Keys(m)
    ensures Keys(AddImport(m, file, r)) == FirstSeen(OtherPaths(file, init + [r]))
  {
    SnocPaths(file, init, r);
    FirstSeenHas(OtherPaths(file, init), r.1);
    FirstSeenSnoc(OtherPaths(file, init), r.1);
  }

  lemma AddImportKnownNames(m: Imports, file: string, init: seq<Request>, r: Request)
    requires Gathered(m, file, init) && r.1 != file && r.1 in Keys(m)
    ensures var m' := AddImport(m, file, r);
      forall q :: q in Keys(m') ==> Get(m', q) == Some(FirstSeen(NamesFrom(q, init + [r])))
  {
    var (n, p) := r;
    SnocPaths(file, init, r);
    var names := FirstSeen(NamesFrom(p, init));
    FirstSeenSnoc(NamesFrom(p, init), n);
    FirstSeenHas(NamesFrom(p, init), n);
    var names' := if n in names then names else names + [n];
    assert names' == FirstSeen(NamesFrom(p, init + [r]));
    assert AddImport(m, file, r) == Put(m, p, names');
  }

  lemma AddImportNewKeys(m: Imports, file: string, init: seq<Request>, r: Request)
    requires Keys(m) == FirstSeen(OtherPaths(file, init)) && r.1 != file && r.1 !in Keys(m)
    ensures Keys(AddImport(m, file, r)) == FirstSeen(OtherPaths(file, init + [r]))
  {
    SnocPaths(file, init, r);
    FirstSeenHas(OtherPaths(file, init), r.1);
    FirstSeenSnoc(OtherPaths(file, init), r.1);
    NewImport(m, file, r);
    PutKeys(m, r.1, [r.0]);
  }

  lemma AddImportNewNames(m: Imports, file: string, init: seq<Request>, r: Request)
    requires Gathered(m, file, init) && r.1 != file && r.1 !in Keys(m)
    ensures var m' := AddImport(m, file, r);
      forall q :: q in Keys(m') ==> Get(m', q) == Some(FirstSeen(NamesFrom(q, init + [r])))
  {
    var (n, p) := r;
    SnocPaths(file, init, r);
    assert NamesFrom(p, init) == [] by {
      FirstSeenHas(OtherPaths(file, init), p);
      OtherPathsHas(file, init, p);
      NamesFromNone(p, init);
    }
    assert FirstSeen([n]) == [n] by { assert [n][..0] == []; }
    NewImport(m, file, r);
  }

  /** A request from a file not yet imported appends the file with its one name. */
  lemma NewImport(m: Imports, file: string, r: Request)
    requires r.1 != file && r.1 !in Keys(m)
    ensures AddImport(m, file, r) == Put(m, r.1, [r.0]) == m + [(r.1, [r.0])]
  {
    assert Get(m, r.1).GetOr([]) == [];
    assert [] + [r.0] == [r.0];
  }

  /** No names are requested from a file no request names. */
  lemma {:induction false} NamesFromNone(path: string, reqs: seq<Request>)
    requires forall name :: (name, path) !in reqs
    ensures NamesFrom(path, reqs) == []
    decreases |reqs|
  {
    if |reqs| > 0 {
      var init := reqs[..|reqs| - 1];
      assert forall x :: x in init ==> x in reqs;
      NamesFromNone(path, init);
      assert reqs[|reqs| - 1] in reqs;
    }
  }

  /** How one more request extends the requested files and names. */
  lemma SnocPaths(file: string, init: seq<Request>, r: Request)
    ensures OtherPaths(file, init + [r]) == OtherPaths(file, init) + if r.1 != file then [r.1] else []
    ensures NamesFrom(r.1, init + [r]) == NamesFrom(r.1, init) + [r.0]
    ensures forall q :: q != r.1 ==> NamesFrom(q, init + [r]) == NamesFrom(q, init)
  {
    var reqs := init + [r];
    assert reqs[..|reqs| - 1] == init;
  }

  /** No imported file is the file itself, and no name is listed twice for a file. */
  predicate ImportsWellFormed(imports: Imports, file: string) {
    && DistinctKeys(imports)
    && file !in Keys(imports)
    && forall k, i, j :: 0 <= k < |imports| && 0 <= i < j < |imports[k].1| ==> imports[k].1[i] != imports[k].1[j]
  }

  /** `name` is imported from `path`. */
  predicate Imported(imports: Imports, name: string, path: string) {
    match Get(imports, path)
    case Some(names) => name in names
    case None => false
  }

  lemma PutNamesWellFormed(imports: Imports, file: string, path: string, names: seq<string>)
    requires ImportsWellFormed(imports, file) && path != file
    requires forall i, j :: 0 <= i < j < |names| ==> names[i] != names[j]
    ensures ImportsWellFormed(Put(imports, path, names), file)
  {
    var r := Put(imports, path, names);
    assert file !in Keys(r) by {
      assert Get(r, file) == Get(imports, file);
    }
    PutEntries(imports, path, names);
    forall k, i, j | 0 <= k < |r| && 0 <= i < j < |r[k].1| ensures r[k].1[i] != r[k].1[j] {
      if r[k] != (path, names) {
        var m :| 0 <= m < |imports| && imports[m] == r[k];
      }
    }
  }

  /** One import request keeps the imports well formed and adds exactly its own pair,
      unless it names the file itself. */
  lemma AddImportEffect(imports: Imports, file: string, req: Request, name: string, path: string)
    requires ImportsWellFormed(imports, file)
    ensures ImportsWellFormed(AddImport(imports, file, req), file)
    ensures Imported(AddImport(imports, file, req), name, path)
        <==> Imported(imports, name, path) || (req == (name, path) && path != file)
  {
    var (n, p) := req;
    if p != file {
      var names := Get(imports, p).GetOr([]);
      var names' := if n in names then names else names + [n];
      if Get(imports, p).Some? {
        var i := Find(imports, p).value;
        assert names == imports[i].1;
      }
      assert forall i, j :: 0 <= i < j < |names| ==> names[i] != names[j];
      assert forall i, j :: 0 <= i < j < |names'| ==> names'[i] != names'[j];
      PutNamesWellFormed(imports, file, p, names');
      assert forall x :: x in names' <==> x in names || x == n;
    }
  }

  /** The imports of a file are exactly the requested (name, file) pairs whose file is
      another one. */
  lemma {:induction false} AddImportsExact(imports: Imports, file: string, reqs: seq<Request>, name: string, path: string)
    requires ImportsWellFormed(imports, file)
    ensures ImportsWellFormed(AddImports(imports, file, reqs), file)
    ensures Imported(AddImports(imports, file, reqs), name, path)
        <==> Imported(imports, name, path) || ((name, path) in reqs && path != file)
    decreases |reqs|
  {
    if |reqs| > 0 {
      var next := AddImport(imports, file, reqs[0]);
      AddImportEffect(imports, file, reqs[0], name, path);
      AddImportsExact(next, file, reqs[1..], name, path);
      InCons(reqs, (name, path));
    }
  }

  /** The specifier of an import: the relative path without its first `.ts`. */
  function Specifier(file: string, importFile: string): string {
    ReplaceFirst(RelativeImport(file, importFile), ".ts", "")
  }

  /** The import declaration for one imported file and its names. */
  function ImportDecl(file: string, entry: (string, seq<string>)): Decl {
    Import(entry.1, Specifier(file, entry.0))
  }

  /** The import declarations: each `unshift`ed in turn, so the last imported file
      comes first. */
  function ImportDecls(file: string, imports: Imports): seq<Decl> {
    Reversed(MapSeq(imports, entry => ImportDecl(file, entry)))
  }

  /** The declaration of one collected type, with the imports its fields ask for. An
      entry whose node is not a type adds nothing. */
  function TypeDecl(g: Generator, e: CachedType, fuel: nat): (r: (seq<Decl>, seq<Request>))
    requires GenValid(g)
    ensures Offered(g, r.1)
  {
    if e.node >= |g.a| || ParentIsMessage(g.a, e.node) then ([], [])
    else match g.a[e.node].kind
      case Enum(_) =>
        var d := match EnumDefinition(g, e.node, Some(e.name))
          case Declared(decl) => decl
          case Inline(t) => Bare(t);
        ([d, Spacer], [])
      case Message(fields) =>
        FieldsOfMessage(g.a, e.node);
        var (ms, reqs) := InterfaceMembers(g, fields, fuel);
        ([Interface(e.name, ms), Spacer], reqs)
      case _ => ([], [])
  }

  /** The declarations of a file's types, in order, with their import requests. */
  function Body(g: Generator, group: seq<CachedType>, fuel: nat): (r: (seq<Decl>, seq<Request>))
    requires GenValid(g)
    ensures Offered(g, r.1)
  {
    if |group| == 0 then ([], [])
    else
      var (d, reqs) := TypeDecl(g, group[0], fuel);
      var (ds, more) := Body(g, group[1..], fuel);
      OfferedConcat(g, reqs, more);
      (d + ds, reqs + more)
  }

  /** The header comment of a type file. */
  function FileHeader(cfg: Config, file: string, timestamp: string): seq<Decl> {
    match cfg.fileHeaderCommentTemplate
    case Some(t) =>
      if t == "" then []
      else
        var vars := [("generationTimestamp", timestamp), ("sourceFile", ReplaceFirst(file, ".ts", ".proto"))];
        [Comment(ReplaceVariables(t, vars, false)), Spacer]
    case None => []
  }

  /** The output file for one generated path and its group of types. */
  function GenerateFile(g: Generator, file: string, group: seq<CachedType>, timestamp: string, fuel: nat): OutputFile
    requires GenValid(g)
  {
    var (body, reqs) := Body(g, group, fuel);
    var imports := AddImports([], file, reqs);
    var importBlock := ImportDecls(file, imports) + (if |imports| > 0 then [Spacer] else []);
    OutputFile(JoinPaths(g.cfg.outputPath, file), FileHeader(g.cfg, file, timestamp) + importBlock + body)
  }

  /** The index file's header comment. */
  function IndexHeader(cfg: Config, timestamp: string): seq<Decl> {
    match cfg.indexFileHeaderCommentTemplate
    case Some(t) => if t == "" then [] else [Comment(ReplaceVariables(t, [("generationTimestamp", timestamp)], false))]
    case None => []
  }

  /** The re-export of every generated file, in file order. */
  function IndexExports(files: seq<string>): (r: seq<Decl>)
    ensures |r| == |files|
    ensures forall k :: 0 <= k < |files| ==> r[k] == Export("./" + ReplaceFirst(files[k], ".ts", ""))
  {
    seq(|files|, k requires 0 <= k < |files| => Export("./" + ReplaceFirst(files[k], ".ts", "")))
  }

  /** The index file. */
  function IndexFile(cfg: Config, files: seq<string>, timestamp: string): OutputFile {
    OutputFile(JoinPaths(cfg.outputPath, "index.ts"), IndexHeader(cfg, timestamp) + IndexExports(files))
  }

  /** One output file per group, in group order. */
  function GenerateFiles(g: Generator, groups: Assoc<seq<CachedType>>, timestamp: string, fuel: nat): (r: seq<OutputFile>)
    requires GenValid(g)
    ensures |r| == |groups|
    ensures forall k :: 0 <= k < |groups| ==> r[k] == GenerateFile(g, groups[k].0, groups[k].1, timestamp, fuel)
  {
    seq(|groups|, k requires 0 <= k < |groups| => GenerateFile(g, groups[k].0, groups[k].1, timestamp, fuel))
  }

  /** `generateTypeDefinitionsByFile()`: collect the types, group them by file, write
      each file, then the index file when asked for. */
  function Generate(cfg: Config, ext: Externals, a: Arena, timestamp: string, fuel: nat): seq<OutputFile>
    requires ValidArena(a) && ConfigValid(cfg)
  {
    var cache := TypeCache(cfg, ext, a);
    var g := Generator(cfg, ext, a, cache);
    var groups := GroupByFile(Values(cache));
    GenerateFiles(g, groups, timestamp, fuel)
      + if cfg.generateIndexFile then [IndexFile(cfg, Keys(groups), timestamp)] else []
  }

  /** The imports a file's declarations ask for, gathered as `addImport` gathers them. */
  function FileImports(g: Generator, file: string, group: seq<CachedType>, fuel: nat): Imports
    requires GenValid(g)
  {
    AddImports([], file, Body(g, group, fuel).1)
  }

  /** A file imports exactly the (name, file) pairs its declarations reference in other
      files, each file once and each name once, never the file itself; every import is
      a collected type. */
  lemma FileImportsExact(g: Generator, file: string, group: seq<CachedType>, fuel: nat, name: string, path: string)
    requires GenValid(g)
    ensures ImportsWellFormed(FileImports(g, file, group, fuel), file)
    ensures Imported(FileImports(g, file, group, fuel), name, path)
        <==> (name, path) in Body(g, group, fuel).1 && path != file
    ensures Imported(FileImports(g, file, group, fuel), name, path) ==> (name, path) in Offers(g.cache)
  {
    var reqs := Body(g, group, fuel).1;
    AddImportsExact([], file, reqs, name, path);
    if (name, path) in reqs {
      var k :| 0 <= k < |reqs| && reqs[k] == (name, path);
    }
  }

  /** The statements of a type file: the header comment and a blank line when there is
      a header template, the import declarations (last imported file first, see
      `FileImportDeclsOrder`) and a blank line after them when there are any, then the type
      declarations. This is a map of `GenerateFile`'s concatenation for the reader; what
      the imports and the declarations hold is stated by `FileImportsExact`,
      `FileImportDeclsOrder` and `BodyShape`. */
  lemma FileLayout(g: Generator, file: string, group: seq<CachedType>, timestamp: string, fuel: nat)
    requires GenValid(g)
    ensures var out := GenerateFile(g, file, group, timestamp, fuel);
      var imports := FileImports(g, file, group, fuel);
      var h := |FileHeader(g.cfg, file, timestamp)|;
      var n := |imports|;
      var m := h + n + (if n > 0 then 1 else 0);
      && out.path == JoinPaths(g.cfg.outputPath, file)
      && (h == 2 <==> Truthy(g.cfg.fileHeaderCommentTemplate))
      && (h == 2 || h == 0)
      && m <= |out.decls|
      && out.decls[h..h + n] == ImportDecls(file, imports)
      && (n > 0 ==> out.decls[h + n] == Spacer)
      && out.decls[m..] == Body(g, group, fuel).0
  {
    var imports := FileImports(g, file, group, fuel);
    var header := FileHeader(g.cfg, file, timestamp);
    var decls := ImportDecls(file, imports);
    var block := decls + (if |imports| > 0 then [Spacer] else []);
    var body := Body(g, group, fuel).0;
    LayoutSlices(header, decls, block, body);
  }

  lemma LayoutSlices(header: seq<Decl>, decls: seq<Decl>, block: seq<Decl>, body: seq<Decl>)
    requires block == decls + (if |decls| > 0 then [Spacer] else [])
    ensures var all := header + block + body;
      && (header + block + body)[|header|..|header| + |decls|] == decls
      && (|decls| > 0 ==> all[|header| + |decls|] == Spacer)
      && all[|header| + |block|..] == body
  {
    var all := header + block + body;
    assert all[|header|..|header| + |decls|] == decls;
    assert all[|header| + |block|..] == body;
  }

  /** The import declarations of a file: the files its declarations request other
      than itself, the last first requested first, because each is `unshift`ed; each
      with the names requested from it, in first-request order. */
  lemma FileImportDeclsOrder(g: Generator, file: string, group: seq<CachedType>, fuel: nat)
    requires GenValid(g)
    ensures var reqs := Body(g, group, fuel).1;
      var paths := FirstSeen(OtherPaths(file, reqs));
      var decls := ImportDecls(file, FileImports(g, file, group, fuel));
      && |decls| == |paths|
      && forall k :: 0 <= k < |paths| ==>
        decls[k] == Import(FirstSeen(NamesFrom(paths[|paths| - 1 - k], reqs)), Specifier(file, paths[|paths| - 1 - k]))
  {
    var reqs := Body(g, group, fuel).1;
    var imports := FileImports(g, file, group, fuel);
    AddImportsOrder(file, reqs);
    AddImportsExact([], file, reqs, "", "");
    forall k | 0 <= k < |imports| ensures imports[k].1 == FirstSeen(NamesFrom(imports[k].0, reqs)) {
      assert Keys(imports)[k] == imports[k].0;
      GetDistinct(imports, k);
    }
  }

  /** Two files in the same directory, the imported one named `stem.ts` with no other
      dot, import as `./stem`. */
  lemma SiblingSpecifier(file: string, importFile: string, stem: string)
    requires AllPlain(Split(file, '/')) && AllPlain(Split(importFile, '/'))
    requires Dir(Split(file, '/')) == Dir(Split(importFile, '/'))
    requires Base(Split(importFile, '/')) == stem + ".ts" && NoChar(stem, '.')
    ensures Specifier(file, importFile) == "./" + stem
  {
    SiblingSpecifierFirstTs(file, importFile, stem, "");
    assert stem + ".ts" + "" == stem + ".ts";
    assert "./" + stem + "" == "./" + stem;
  }

  /** The specifier loses the FIRST `.ts` of a sibling's name, not its extension: a
      name `stem.ts` + `rest` with a dot-free stem imports as `./stem` + `rest`. */
  lemma SiblingSpecifierFirstTs(file: string, importFile: string, stem: string, rest: string)
    requires AllPlain(Split(file, '/')) && AllPlain(Split(importFile, '/'))
    requires Dir(Split(file, '/')) == Dir(Split(importFile, '/'))
    requires Base(Split(importFile, '/')) == stem + ".ts" + rest && NoChar(stem, '.')
    ensures Specifier(file, importFile) == "./" + stem + rest
  {
    RelativeImportSibling(file, importFile);
    assert RelativeImport(file, importFile) == "./" + stem + ".ts" + rest;
    DotSlashStem(stem, rest);
  }

  /** So a sibling generated from `a.tsv.proto`, the file `a.tsv.ts`, is imported from
      `./av.ts`, a file that is not generated. */
  lemma DottedSiblingSpecifier()
    ensures Specifier("b.ts", "a.tsv.ts") == "./av.ts"
  {
    var file, other := "b.ts", "a.tsv.ts";
    assert other == "a" + ".ts" + "v.ts" && "./" + "a" + "v.ts" == "./av.ts" by {
      DottedNameParts();
    }
    SplitWhole(file, '/');
    SplitWhole(other, '/');
    assert AllPlain([file]) && AllPlain([other]);
    SiblingSpecifierFirstTs(file, other, "a", "v.ts");
  }

  lemma DottedNameParts()
    ensures "a.tsv.ts" == "a" + ".ts" + "v.ts" && "./" + "a" + "v.ts" == "./av.ts"
  {
    assert ("a" + ".ts" + "v.ts")[1..4] == ".ts";
  }

  lemma DotSlashStem(stem: string, rest: string)
    requires NoChar(stem, '.')
    ensures ReplaceFirst("./" + stem + ".ts" + rest, ".ts", "") == "./" + stem + rest
  {
    var head := "./" + stem;
    var s := head + (".ts" + rest);
    assert s == "./" + stem + ".ts" + rest;
    var n := |head|;
    assert OccursAt(s, ".ts", n) by { assert s[n..n + 3] == ".ts"; }
    forall j | 0 <= j < n ensures !OccursAt(s, ".ts", j) {
      assert s[j] == head[j];
      assert s[j..j + 3][0] == s[j] && s[j..j + 3][1] == s[j + 1];
      if j >= 2 { assert head[j] == stem[j - 2]; }
      else { assert s[1] == '/'; }
    }
    assert s[..n] == head;
    assert s[n + 3..] == rest;
  }

  /** Every entry of a list is in its own file's group. */
  lemma {:induction false} InFileHas(es: seq<CachedType>, e: CachedType)
    requires e in es
    ensures e in InFile(es, e.path)
    decreases |es|
  {
    var last := es[|es| - 1];
    if e != last {
      assert es == es[..|es| - 1] + [last];
      InFileHas(es[..|es| - 1], e);
    }
  }

  /** Every collected type is declared in the file named by its path: that file's group
      holds its entry. */
  lemma EveryTypeHasAFile(cfg: Config, ext: Externals, a: Arena, e: CachedType)
    requires ValidArena(a) && ConfigValid(cfg)
    requires e in Values(TypeCache(cfg, ext, a))
    ensures var groups := GroupByFile(Values(TypeCache(cfg, ext, a)));
      exists k :: 0 <= k < |groups| && groups[k].0 == e.path && e in groups[k].1
  {
    var es := Values(TypeCache(cfg, ext, a));
    var groups := GroupByFile(es);
    GroupByFileIsFilter(es, e.path);
    var i :| 0 <= i < |es| && es[i] == e;
    assert Collect.Paths(es)[i] == e.path;
    InFileHas(es, e);
    var k := Find(groups, e.path).value;
    assert groups[k].0 == e.path && groups[k].1 == InFile(es, e.path);
  }

  /** The output: one type file per distinct path in first-seen order, then, when asked
      for, the index file re-exporting each of them in that order. */
  lemma GenerateLayout(cfg: Config, ext: Externals, a: Arena, timestamp: string, fuel: nat)
    requires ValidArena(a) && ConfigValid(cfg)
    ensures var es := Values(TypeCache(cfg, ext, a));
      var files := FirstSeen(Collect.Paths(es));
      var out := Generate(cfg, ext, a, timestamp, fuel);
      var h := |IndexHeader(cfg, timestamp)|;
      && |out| == |files| + (if cfg.generateIndexFile then 1 else 0)
      && (forall k :: 0 <= k < |files| ==> out[k].path == JoinPaths(cfg.outputPath, files[k]))
      && (cfg.generateIndexFile ==>
            && out[|files|].path == JoinPaths(cfg.outputPath, "index.ts")
            && |out[|files|].decls| == h + |files|
            && forall k :: 0 <= k < |files| ==> out[|files|].decls[h + k] == Export("./" + ReplaceFirst(files[k], ".ts", "")))
  {
    var cache := TypeCache(cfg, ext, a);
    var es := Values(cache);
    var groups := GroupByFile(es);
    GroupByFileOrder(es);
    var files := FirstSeen(Collect.Paths(es));
    assert |files| == |groups|;
    var g := Generator(cfg, ext, a, cache);
    forall k | 0 <= k < |files| ensures Generate(cfg, ext, a, timestamp, fuel)[k].path == JoinPaths(cfg.outputPath, files[k]) {
      assert Keys(groups)[k] == groups[k].0;
    }
  }

  /** `d` declares the collected type `e`: an interface of that name with one member
      per field for a message; for an enum, an enum or a type alias of that name
      listing its values, or the bare union when the name is empty. */
  predicate DeclaresType(a: Arena, e: CachedType, d: Decl)
    requires e.node < |a|
  {
    match a[e.node].kind
    case Message(fields) => d.Interface? && d.name == e.name && |d.members| == |fields|
    case Enum(values) =>
      if e.name == "" then d == Bare(Union(values))
      else (d.EnumDecl? || d.TypeAlias?) && d.name == e.name && ListedValues(Declared(d)) == values
    case _ => false
  }

  /** A registered type contributes its declaration and a blank line; an enum asks for
      no imports. */
  lemma TypeDeclShape(g: Generator, e: CachedType, fuel: nat)
    requires GenValid(g) && e.node < |g.a| && Registrable(g.a, e.node)
    ensures var (ds, reqs) := TypeDecl(g, e, fuel);
      && |ds| == 2 && ds[1] == Spacer && DeclaresType(g.a, e, ds[0])
      && (g.a[e.node].kind.Enum? ==> reqs == [])
  {
    if g.a[e.node].kind.Enum? {
      EnumDefinitionForms(g, e.node, Some(e.name));
    }
  }

  /** The body of a file is the declarations of its types in group order, two
      statements each. */
  lemma {:induction false} BodyShape(g: Generator, group: seq<CachedType>, fuel: nat)
    requires GenValid(g)
    requires forall k :: 0 <= k < |group| ==> group[k].node < |g.a| && Registrable(g.a, group[k].node)
    ensures |Body(g, group, fuel).0| == 2 * |group|
    ensures forall k :: 0 <= k < |group| ==> Body(g, group, fuel).0[2 * k..2 * k + 2] == TypeDecl(g, group[k], fuel).0
    decreases |group|
  {
    if |group| > 0 {
      var d := TypeDecl(g, group[0], fuel).0;
      TypeDeclShape(g, group[0], fuel);
      BodyShape(g, group[1..], fuel);
      var ds := Body(g, group[1..], fuel).0;
      assert Body(g, group, fuel).0 == d + ds;
      forall k | 0 <= k < |group| ensures (d + ds)[2 * k..2 * k + 2] == TypeDecl(g, group[k], fuel).0 {
        if k == 0 {
          PairAt(d, ds, 0);
        } else {
          assert group[1..][k - 1] == group[k];
          PairAt(d, ds, k);
        }
      }
    }
  }

  /** Every type placed in an output file is a registered node reached by the
      traversal, under the name and file the cache gave it. */
  lemma GroupedTypesRegistered(cfg: Config, ext: Externals, a: Arena, p: string, e: CachedType)
    requires ValidArena(a)
    requires e in InFile(Values(TypeCache(cfg, ext, a)), p)
    ensures e.node < |a| && Registrable(a, e.node) && Reaches(cfg, a, 0, e.node)
    ensures e == Entry(cfg, ext, a, e.node) && e.path == p
  {
    var es := Values(TypeCache(cfg, ext, a));
    TypeCacheExact(cfg, ext, a);
    InFileMember(es, p, e);
    var i :| 0 <= i < |es| && es[i] == e;
    assert Made(cfg, ext, a, 0, TypeCache(cfg, ext, a)[i]);
  }

  lemma {:induction false} InFileMember(es: seq<CachedType>, p: string, e: CachedType)
    requires e in InFile(es, p)
    ensures e in es && e.path == p
    decreases |es|
  {
    var init := es[..|es| - 1];
    if e in InFile(init, p) {
      InFileMember(init, p, e);
    }
  }
}
