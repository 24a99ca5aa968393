/** How generated types and files are named: `buildTypeName`, `buildTypeCacheKey`,
    `buildGeneratedTypeName`, `buildGeneratedFilename` and `getEnumKeyName`. */
module Naming {
  import opened Maybe
  import opened Seqs
  import opened Text
  import opened Template
  import opened Schema
  import opened Settings

  const UnknownFileName: string := "proto_to_ts_unknown_file_name.proto"

  /** Node names never hold `{`: protobuf names are identifiers. */
  predicate BraceFreeNames(a: Arena) {
    forall j :: 0 <= j < |a| ==> NoChar(a[j].name, '{')
  }

  /** The name node `p` contributes to a parent-name list: none when it is ignore-listed. */
  function Own(a: Arena, p: nat, ignore: seq<string>): seq<string>
    requires p < |a|
  {
    if a[p].name in ignore then [] else [a[p].name]
  }

  /** The names of the ancestors of `i` that are not ignore-listed, outermost first. */
  function ParentNames(a: Arena, i: nat, ignore: seq<string>): seq<string>
    requires ValidArena(a) && i < |a|
    decreases i
  {
    match a[i].parent
    case None => []
    case Some(p) => ParentNames(a, p, ignore) + Own(a, p, ignore)
  }

  /** The names not on the ignore list, in order. */
  function Kept(xs: seq<string>, ignore: seq<string>): (r: seq<string>)
    ensures forall x :: x in r <==> x in xs && x !in ignore
  {
    if |xs| == 0 then []
    else
      assert forall x :: x in xs <==> x == xs[0] || x in xs[1..];
      (if xs[0] in ignore then [] else [xs[0]]) + Kept(xs[1..], ignore)
  }

  lemma {:induction false} KeptAppend(xs: seq<string>, ys: seq<string>, ignore: seq<string>)
    ensures Kept(xs + ys, ignore) == Kept(xs, ignore) + Kept(ys, ignore)
    decreases |xs|
  {
    if |xs| == 0 {
      assert xs + ys == ys;
    } else {
      assert (xs + ys)[0] == xs[0];
      assert (xs + ys)[1..] == xs[1..] + ys;
      KeptAppend(xs[1..], ys, ignore);
    }
  }

  lemma NamesSnoc(a: Arena, ns: seq<nat>, p: nat)
    requires p < |a| && forall k :: 0 <= k < |ns| ==> ns[k] < |a|
    ensures Names(a, ns + [p]) == Names(a, ns) + [a[p].name]
  {
  }

  /** The parent names are the names along the ancestor chain, ignore-listed ones left out. */
  lemma {:induction false} ParentNamesKept(a: Arena, i: nat, ignore: seq<string>)
    requires ValidArena(a) && i < |a|
    ensures ParentNames(a, i, ignore) == Kept(Names(a, Ancestors(a, i)), ignore)
    decreases i
  {
    if i > 0 {
      var p := a[i].parent.value;
      ParentNamesKept(a, p, ignore);
      NamesSnoc(a, Ancestors(a, p), p);
      KeptAppend(Names(a, Ancestors(a, p)), [a[p].name], ignore);
      assert Kept([a[p].name], ignore) == Own(a, p, ignore) by {
        assert [a[p].name][1..] == [];
      }
    }
  }

  /** The walk of `buildTypeName`: from the parent up to the root, every name that is not
      ignore-listed is put in front of those found so far. */
  method ParentNamesWalk(a: Arena, i: nat, ignore: seq<string>) returns (names: seq<string>)
    requires ValidArena(a) && i < |a|
    ensures names == ParentNames(a, i, ignore)
  {
    names := [];
    var cur: Option<nat> := a[i].parent;
    ParentNamesUnfold(a, i, ignore);
    assert Pending(a, cur, ignore) + names == ParentNames(a, i, ignore);
    while cur.Some?
      invariant cur.Some? ==> cur.value < |a|
      invariant Pending(a, cur, ignore) + names == ParentNames(a, i, ignore)
      decreases if cur.Some? then cur.value + 1 else 0
    {
      var c := cur.value;
      ghost var before := names;
      if a[c].name !in ignore {
        names := [a[c].name] + names;
      }
      assert names == Own(a, c, ignore) + before;
      cur := a[c].parent;
      ParentNamesUnfold(a, c, ignore);
      Concat3(ParentNames(a, c, ignore), Own(a, c, ignore), before);
    }
  }

  /** The names the walk has still to find once it has reached `cur`. */
  function Pending(a: Arena, cur: Option<nat>, ignore: seq<string>): seq<string>
    requires ValidArena(a) && (cur.Some? ==> cur.value < |a|)
  {
    match cur
    case Some(c) => ParentNames(a, c, ignore) + Own(a, c, ignore)
    case None => []
  }

  lemma ParentNamesUnfold(a: Arena, i: nat, ignore: seq<string>)
    requires ValidArena(a) && i < |a|
    ensures a[i].parent.Some? ==> a[i].parent.value < |a|
    ensures ParentNames(a, i, ignore) == Pending(a, a[i].parent, ignore)
  {
  }

  /** The variables `buildTypeName` substitutes. */
  function TypeNameVariables(a: Arena, i: nat, ignore: seq<string>): seq<(string, string)>
    requires ValidArena(a) && i < |a|
  {
    [("parentNodeNames", Join(ParentNames(a, i, ignore), " ")), ("typeName", a[i].name)]
  }

  /** `buildTypeName(node, template, caseFn, ignore)`. */
  function BuildTypeName(a: Arena, i: nat, template: string, caseFn: string -> string, ignore: seq<string>): string
    requires ValidArena(a) && i < |a|
  {
    caseFn(ReplaceVariables(template, TypeNameVariables(a, i, ignore), true))
  }

  lemma ParentNamesBraceFree(a: Arena, i: nat, ignore: seq<string>)
    requires ValidArena(a) && i < |a| && BraceFreeNames(a)
    ensures NoChar(Join(ParentNames(a, i, ignore), " "), '{')
  {
    var names := ParentNames(a, i, ignore);
    ParentNamesKept(a, i, ignore);
    var anc := Ancestors(a, i);
    forall k | 0 <= k < |names| ensures NoChar(names[k], '{') {
      assert names[k] in Names(a, anc);
      var m :| 0 <= m < |anc| && Names(a, anc)[m] == names[k];
      assert names[k] == a[anc[m]].name;
    }
    JoinNoChar(names, " ", '{');
  }

  /** For a template made of literal text and placeholders, the type name is the case
      function applied once to the trimmed text in which every `parentNodeNames` and
      `typeName` placeholder holds its padded value. */
  lemma BuildTypeNameFills(a: Arena, i: nat, ps: seq<Piece>, caseFn: string -> string, ignore: seq<string>)
    requires ValidArena(a) && i < |a| && BraceFreeNames(a) && WellFormed(ps)
    ensures BuildTypeName(a, i, Spell(ps), caseFn, ignore)
         == caseFn(Trim(Fill(ps, TypeNameVariables(a, i, ignore), true)))
  {
    var vars := TypeNameVariables(a, i, ignore);
    DefaultNamesAreVariables();
    ParentNamesBraceFree(a, i, ignore);
    assert NoChar(a[i].name, '{');
    ReplaceVariablesFills(ps, vars, true);
  }

  /** Under the default template the case function sees the parent names and the type
      name, each padded with one space, trimmed. */
  lemma DefaultTypeName(a: Arena, i: nat, caseFn: string -> string, ignore: seq<string>)
    requires ValidArena(a) && i < |a| && BraceFreeNames(a)
    ensures BuildTypeName(a, i, DefaultNameTemplate, caseFn, ignore)
         == caseFn(Trim(" " + Join(ParentNames(a, i, ignore), " ") + "  " + a[i].name + " "))
  {
    DefaultNamePiecesSpelling();
    BuildTypeNameFills(a, i, DefaultNamePieces, caseFn, ignore);
    DefaultFill(Join(ParentNames(a, i, ignore), " "), a[i].name);
  }

  lemma DefaultFill(parents: string, name: string)
    ensures Fill(DefaultNamePieces, [("parentNodeNames", parents), ("typeName", name)], true)
         == " " + parents + "  " + name + " "
  {
    var vars := [("parentNodeNames", parents), ("typeName", name)];
    assert Assoc.Get(vars, "parentNodeNames") == Some(parents);
    assert |"typeName"| != |"parentNodeNames"|;
    Assoc.GetTail(vars, "typeName");
    assert vars[1..] == [("typeName", name)];
    assert Assoc.Get(vars, "typeName") == Some(name);
    var ps := DefaultNamePieces;
    assert ps[1..] == [Slot("typeName", "", "")];
    assert ps[1..][1..] == [];
    assert Fill(ps[1..], vars, true) == " " + name + " " + "";
  }

  /** `${node.filename}`: a missing file name prints as `null`. */
  function FilenameText(f: Option<string>): string {
    match f
    case Some(s) => s
    case None => "null"
  }

  /** The name a type gets under the default template and case, with no ignore list. */
  function DefaultName(ext: Externals, a: Arena, i: nat): string
    requires ValidArena(a) && i < |a|
  {
    BuildTypeName(a, i, DefaultNameTemplate, CaseFunction(ext, DefaultNameCase), [])
  }

  /** `buildTypeCacheKey(node)`. */
  function CacheKey(ext: Externals, a: Arena, i: nat): string
    requires ValidArena(a) && i < |a|
  {
    FilenameText(a[i].filename) + ":" + DefaultName(ext, a, i)
  }

  /** The key can be read back: its first `:` ends the file name, and the default
      name follows. */
  lemma CacheKeyDecodes(ext: Externals, a: Arena, i: nat)
    requires ValidArena(a) && i < |a| && NoChar(FilenameText(a[i].filename), ':')
    ensures var key, ft := CacheKey(ext, a, i), FilenameText(a[i].filename);
            IndexOf(key, ":") == Some(|ft|) && key[..|ft|] == ft && key[|ft| + 1..] == DefaultName(ext, a, i)
  {
    var key, ft := CacheKey(ext, a, i), FilenameText(a[i].filename);
    assert key[|ft|] == ':';
    assert OccursAt(key, ":", |ft|) by { assert key[|ft|..|ft| + 1] == [key[|ft|]]; }
    forall j | 0 <= j < |ft| ensures !OccursAt(key, ":", j) {
      assert key[j] == ft[j];
      assert key[j..j + 1][0] == key[j];
    }
    FirstOccurrenceUnique(key, ":", |ft|);
  }

  /** A separator that the tails do not hold splits a joined text in one way only: at
      its last occurrence. */
  lemma LastSeparatorSplit(f1: string, n1: string, f2: string, n2: string, sep: char)
    requires NoChar(n1, sep) && NoChar(n2, sep)
    requires f1 + [sep] + n1 == f2 + [sep] + n2
    ensures f1 == f2 && n1 == n2
  {
    var s := f1 + [sep] + n1;
    forall k | |f1| < k < |s| ensures s[k] != sep {
      assert s[k] == n1[k - |f1| - 1];
    }
    forall k | |f2| < k < |s| ensures s[k] != sep {
      assert s[k] == (f2 + [sep] + n2)[k] == n2[k - |f2| - 1];
    }
    assert s[|f1|] == sep;
    assert s[|f2|] == (f2 + [sep] + n2)[|f2|] == sep;
    assert f1 == s[..|f1|] && n1 == s[|f1| + 1..];
    assert f2 == s[..|f2|] && n2 == s[|f2| + 1..];
  }

  /** Two types share a cache entry exactly when their file names and default names
      agree, provided both file names or both default names are free of `:`. */
  lemma CacheKeyCollision(ext: Externals, a: Arena, i: nat, j: nat)
    requires ValidArena(a) && i < |a| && j < |a|
    requires (NoChar(FilenameText(a[i].filename), ':') && NoChar(FilenameText(a[j].filename), ':'))
          || (NoChar(DefaultName(ext, a, i), ':') && NoChar(DefaultName(ext, a, j), ':'))
    ensures CacheKey(ext, a, i) == CacheKey(ext, a, j)
        <==> FilenameText(a[i].filename) == FilenameText(a[j].filename) && DefaultName(ext, a, i) == DefaultName(ext, a, j)
  {
    if NoChar(FilenameText(a[i].filename), ':') && NoChar(FilenameText(a[j].filename), ':') {
      CacheKeyDecodes(ext, a, i);
      CacheKeyDecodes(ext, a, j);
    } else if CacheKey(ext, a, i) == CacheKey(ext, a, j) {
      LastSeparatorSplit(FilenameText(a[i].filename), DefaultName(ext, a, i),
                         FilenameText(a[j].filename), DefaultName(ext, a, j), ':');
    }
  }

  /** `buildGeneratedTypeName(node)`: enums use the enum template and case, messages the
      type template and case; both drop the configured parent names. */
  function GeneratedTypeName(cfg: Config, ext: Externals, a: Arena, i: nat): string
    requires ValidArena(a) && i < |a|
  {
    var isEnum := a[i].kind.Enum?;
    BuildTypeName(
      a, i,
      if isEnum then cfg.enumNameTemplate else cfg.typeNameTemplate,
      CaseFunction(ext, if isEnum then cfg.enumNameCase else cfg.typeNameCase),
      cfg.typeNameIgnoreParentNodeNames)
  }

  /** Where the naming settings are the defaults, the generated name is the name in the
      cache key. */
  lemma DefaultGeneratedNameIsKeyName(cfg: Config, ext: Externals, a: Arena, i: nat)
    requires ValidArena(a) && i < |a|
    requires cfg.typeNameTemplate == DefaultNameTemplate && cfg.enumNameTemplate == DefaultNameTemplate
    requires cfg.typeNameCase == DefaultNameCase && cfg.enumNameCase == DefaultNameCase
    requires cfg.typeNameIgnoreParentNodeNames == []
    ensures CacheKey(ext, a, i) == FilenameText(a[i].filename) + ":" + GeneratedTypeName(cfg, ext, a, i)
  {
  }

  /** The proto file a type came from: its own, else its parent's, else a placeholder. */
  function SourceFilename(a: Arena, i: nat): (r: string)
    requires ValidArena(a) && i < |a|
    ensures Truthy(a[i].filename) ==> r == a[i].filename.value
  {
    if Truthy(a[i].filename) then a[i].filename.value
    else if a[i].parent.Some? && Truthy(a[a[i].parent.value].filename) then a[a[i].parent.value].filename.value
    else UnknownFileName
  }

  /** `buildGeneratedFilename(node)`. */
  function GeneratedFilename(cfg: Config, a: Arena, i: nat): string
    requires ValidArena(a) && i < |a|
  {
    OutputFilename(cfg.tempDir, SourceFilename(a, i))
  }

  /** The clone directory's first occurrence removed, the first `.proto` made `.ts`, and
      one leading `/` dropped. */
  function OutputFilename(tempDir: string, source: string): string {
    var base := ReplaceFirst(ReplaceFirst(source, tempDir, ""), ".proto", ".ts");
    if StartsWith(base, "/") then base[1..] else base
  }

  /** A proto file inside the clone directory becomes the same path, relative to that
      directory, with `.ts` for `.proto`, provided `.proto` occurs nowhere else in the
      path: the source replaces the first `.proto`, wherever it is. */
  lemma GeneratedFilenameOfClonedFile(tempDir: string, stem: string)
    requires IndexOf(stem, ".proto").None?
    ensures OutputFilename(tempDir, tempDir + "/" + stem + ".proto") == stem + ".ts"
  {
    CloneDirRemoved(tempDir, stem);
    ProtoTail(stem);
  }

  lemma CloneDirRemoved(tempDir: string, stem: string)
    ensures ReplaceFirst(tempDir + "/" + stem + ".proto", tempDir, "") == "/" + stem + ".proto"
  {
    var s := tempDir + "/" + stem + ".proto";
    assert s == tempDir + ("/" + stem + ".proto");
    ReplaceFirstAtStart(s, tempDir, "/" + stem + ".proto");
  }

  lemma ProtoTail(stem: string)
    requires IndexOf(stem, ".proto").None?
    ensures var base := ReplaceFirst("/" + stem + ".proto", ".proto", ".ts");
      (if StartsWith(base, "/") then base[1..] else base) == stem + ".ts"
  {
    var head := "/" + stem;
    assert head[1..] == stem;
    ProtoSuffixReplaced(head);
    DropLeadingSlash(head + ".ts", stem + ".ts");
  }

  lemma DropLeadingSlash(base: string, rest: string)
    requires base == "/" + rest
    ensures (if StartsWith(base, "/") then base[1..] else base) == rest
  {
    assert base[..1] == "/";
  }

  /** A pattern at the very start is the first occurrence and is removed. */
  lemma ReplaceFirstAtStart(s: string, pat: string, rest: string)
    requires s == pat + rest
    ensures ReplaceFirst(s, pat, "") == rest
  {
    assert OccursAt(s, pat, 0) by { assert s[..|pat|] == pat; }
    assert s[|pat|..] == rest;
  }

  /** After a leading `/`, in a path with no `.proto` of its own the extension is the
      first `.proto`: the pattern has its only dot at its start, so no occurrence can
      straddle the path and the extension. */
  lemma ProtoSuffixReplaced(head: string)
    requires |head| > 0 && head[0] == '/' && IndexOf(head[1..], ".proto").None?
    ensures ReplaceFirst(head + ".proto", ".proto", ".ts") == head + ".ts"
  {
    var s := head + ".proto";
    var n := |head|;
    var p := ".proto";
    assert OccursAt(s, p, n) by { assert s[n..] == p; }
    forall j | 0 <= j < n ensures !OccursAt(s, p, j) {
      if j + 6 <= |s| {
        if j == 0 {
          assert s[j..j + 6][0] == '/';
        } else if j + 6 <= n {
          assert s[j..j + 6] == head[1..][j - 1..j + 5];
          assert !OccursAt(head[1..], p, j - 1);
        } else {
          assert s[j..j + 6][n - j] == s[n] == '.';
          assert p[n - j] != '.';
        }
      }
    }
    assert s[..n] == head;
  }

  /** A character `getEnumKeyName` leaves unquoted: a Unicode letter, an ASCII digit,
      `$` or `_`. */
  predicate KeyChar(ext: Externals, c: char) {
    ext.isLetter(c) || IsDigit(c) || c == '$' || c == '_'
  }

  /** `Number(value[0])` is not NaN: the first character is a digit or white space. */
  predicate NumericStart(v: string) {
    |v| > 0 && (IsDigit(v[0]) || IsWhitespace(v[0]))
  }

  function Quote(v: string): string {
    "'" + v + "'"
  }

  /** `getEnumKeyName(value)`: the value itself when it can stand as an enum member
      name, else the value in single quotes. */
  function EnumKeyName(ext: Externals, v: string): (r: string)
    ensures r == v || r == Quote(v)
    ensures r == v <==> !NumericStart(v) && forall k :: 0 <= k < |v| ==> KeyChar(ext, v[k])
  {
    if NumericStart(v) then Quote(v)
    else if exists k :: 0 <= k < |v| && !KeyChar(ext, v[k]) then Quote(v)
    else v
  }

  /** The loop of `getEnumKeyName`, which returns at the first character it rejects. */
  method EnumKeyNameScan(ext: Externals, v: string) returns (r: string)
    ensures r == EnumKeyName(ext, v)
  {
    if NumericStart(v) {
      return Quote(v);
    }
    var k := 0;
    while k < |v|
      invariant k <= |v|
      invariant forall m :: 0 <= m < k ==> KeyChar(ext, v[m])
    {
      if !KeyChar(ext, v[k]) {
        return Quote(v);
      }
      k := k + 1;
    }
    return v;
  }

  /** The key of an enum member: the pascal-cased value with the first occurrence of the
      pascal-cased enum name removed, quoted where needed. */
  function EnumMemberKey(ext: Externals, value: string, enumName: string): string {
    EnumKeyName(ext, ReplaceFirst(ext.pascalCase(value), ext.pascalCase(enumName), ""))
  }

  /** A value that repeats the enum name at its start loses that prefix. */
  lemma EnumMemberKeyStutter(ext: Externals, value: string, enumName: string, rest: string)
    requires ext.pascalCase(value) == ext.pascalCase(enumName) + rest
    ensures EnumMemberKey(ext, value, enumName) == EnumKeyName(ext, rest)
  {
    ReplaceFirstAtStart(ext.pascalCase(value), ext.pascalCase(enumName), rest);
  }

  /** A value in which the enum name does not occur keeps its pascal-cased form. */
  lemma EnumMemberKeyPlain(ext: Externals, value: string, enumName: string)
    requires forall j :: 0 <= j <= |ext.pascalCase(value)| ==> !OccursAt(ext.pascalCase(value), ext.pascalCase(enumName), j)
    ensures EnumMemberKey(ext, value, enumName) == EnumKeyName(ext, ext.pascalCase(value))
  {
  }

  /** The enum name is cut out where it first occurs, anywhere in the value: a value
      `x + name + y` with no earlier occurrence keys as `x + y`. */
  lemma EnumMemberKeyInfix(ext: Externals, value: string, enumName: string, x: string, y: string)
    requires ext.pascalCase(value) == x + ext.pascalCase(enumName) + y
    requires forall j :: 0 <= j < |x| ==> !OccursAt(ext.pascalCase(value), ext.pascalCase(enumName), j)
    ensures EnumMemberKey(ext, value, enumName) == EnumKeyName(ext, x + y)
  {
    ReplaceFirstInfix(ext.pascalCase(value), ext.pascalCase(enumName), x, y);
  }

  /** Removing the first occurrence of `pat` from `x + pat + y`, when it starts at `|x|`. */
  lemma ReplaceFirstInfix(s: string, pat: string, x: string, y: string)
    requires s == x + pat + y
    requires forall j :: 0 <= j < |x| ==> !OccursAt(s, pat, j)
    ensures ReplaceFirst(s, pat, "") == x + y
  {
    var i := |x|;
    assert s[i..i + |pat|] == pat;
    assert OccursAt(s, pat, i);
    assert s[..i] == x;
    assert s[i + |pat|..] == y;
    assert ReplaceFirst(s, pat, "") == s[..i] + "" + s[i + |pat|..];
  }
}
