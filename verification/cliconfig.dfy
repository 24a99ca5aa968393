/** The command line and the configuration file: `parseCLIArgs` reads the two source
    options from the arguments, and `mergeConfigs` lays the arguments over the
    configuration file over `defaultConfig`. Both work on partial configuration
    objects, modelled as insertion-ordered property lists. */
module CliConfig {
  import opened Maybe
  import opened Assoc
  import opened Text
  import opened Settings

  /** A property value of a partial configuration object. `Other` stands for any
      object or function value (a record, a builder callback). */
  datatype Value = Undefined | Null | Bool(b: bool) | Str(s: string) | StrList(items: seq<string>) | Other

  /** JavaScript truthiness: arrays and objects are truthy even when empty. */
  predicate IsTruthy(v: Value) {
    match v
    case Undefined => false
    case Null => false
    case Bool(b) => b
    case Str(s) => s != ""
    case StrList(_) => true
    case Other => true
  }

  /** A partial configuration object. */
  type Partial = Assoc<Value>

  /** Property read `o[k]`: an absent property reads as `undefined`. */
  function Read(o: Partial, k: string): (v: Value)
    ensures k !in Keys(o) ==> v == Undefined
  {
    Get(o, k).GetOr(Undefined)
  }

  const ProtoPath: string := "protoPath"
  const ProtoGitRepository: string := "protoGitRepository"

  /** The string value of a `TypeNameCase` member. */
  function CaseName(c: NameCase): string {
    match c
    case Camel => "camelCase"
    case Constant => "constantCase"
    case Pascal => "pascalCase"
    case Snake => "snakeCase"
  }

  /** `defaultConfig`, as an object in its declaration order. */
  const DefaultObject: Partial := [
    ("tempDir", Str(DefaultTempDir)),
    ("outputPath", Str(DefaultOutputPath)),
    ("fieldNameKeepCase", Bool(DefaultFieldNameKeepCase)),
    ("generateIndexFile", Bool(DefaultGenerateIndexFile)),
    ("enumNameTemplate", Str(DefaultNameTemplate)),
    ("enumNameCase", Str(CaseName(DefaultNameCase))),
    ("typeNameTemplate", Str(DefaultNameTemplate)),
    ("typeNameCase", Str(CaseName(DefaultNameCase)))]

  /** The default object carries the values the generator's default configuration is
      built from. */
  lemma DefaultObjectAgrees()
    ensures Read(DefaultObject, "tempDir") == Str(DefaultConfig.tempDir)
    ensures Read(DefaultObject, "outputPath") == Str(DefaultConfig.outputPath)
    ensures Read(DefaultObject, "generateIndexFile") == Bool(DefaultConfig.generateIndexFile)
    ensures Read(DefaultObject, "typeNameTemplate") == Str(DefaultConfig.typeNameTemplate)
    ensures Read(DefaultObject, "enumNameTemplate") == Str(DefaultConfig.enumNameTemplate)
    ensures Read(DefaultObject, "typeNameCase") == Str(CaseName(DefaultConfig.typeNameCase))
    ensures Read(DefaultObject, "enumNameCase") == Str(CaseName(DefaultConfig.enumNameCase))
  {
    DefaultKeysDistinct();
    GetDistinct(DefaultObject, 0);
    GetDistinct(DefaultObject, 1);
    GetDistinct(DefaultObject, 3);
    GetDistinct(DefaultObject, 4);
    GetDistinct(DefaultObject, 5);
    GetDistinct(DefaultObject, 6);
    GetDistinct(DefaultObject, 7);
  }

  /** `defaultConfig` is an object with neither source option. */
  lemma DefaultKeysDistinct()
    ensures DistinctKeys(DefaultObject)
    ensures forall i :: 0 <= i < |DefaultObject| ==> !IsSource(DefaultObject[i].0)
  {
    forall i, j | 0 <= i < j < |DefaultObject| ensures DefaultObject[i].0 != DefaultObject[j].0 {
      var a, b := DefaultObject[i].0, DefaultObject[j].0;
      assert |a| != |b| || a[0] != b[0];
    }
  }

  // ---------------------------------------------------------------------------
  // parseCLIArgs

  /** `CLI_ARGS_TO_CONFIG_KEY`. */
  function FlagKey(flag: string): (r: Option<string>)
    ensures r == Some(ProtoGitRepository) <==> flag == "git-repository"
    ensures r == Some(ProtoPath) <==> flag == "proto-path"
    ensures r.None? <==> flag != "git-repository" && flag != "proto-path"
  {
    if flag == "git-repository" then Some(ProtoGitRepository)
    else if flag == "proto-path" then Some(ProtoPath)
    else None
  }

  /** The configuration key an argument names: its text from the third UTF-16 code
      unit on, lower-cased. The first two code units are dropped whatever they are; when
      the cut falls inside a surrogate pair the rest starts with a lone surrogate, which
      no flag name does. */
  function ArgKey(arg: string): Option<string> {
    match Utf16Suffix(arg, 2)
    case None => None
    case Some(rest) => FlagKey(AsciiLower(rest))
  }

  /** One turn of the loop: with a key pending, the argument becomes its value unless
      it is itself a flag, and the key is dropped either way; with none pending, a flag
      makes its key pending. */
  function Step(config: Partial, pending: Option<string>, arg: string): (Partial, Option<string>) {
    var key := ArgKey(arg);
    match pending
    case Some(item) => (if key.None? then Put(config, item, Str(arg)) else config, None)
    case None => (config, key)
  }

  /** The loop run over the remaining arguments from a given state. */
  function Run(config: Partial, pending: Option<string>, args: seq<string>): Partial
    decreases |args|
  {
    if |args| == 0 then config
    else
      var (c, p) := Step(config, pending, args[0]);
      Run(c, p, args[1..])
  }

  /** `parseCLIArgs(args)`. */
  function ParseCliArgs(args: seq<string>): Partial {
    Run([], None, args)
  }

  /** `parseCLIArgs` as the loop the source writes. */
  method ParseCliArgsLoop(args: seq<string>) returns (config: Partial)
    ensures config == ParseCliArgs(args)
  {
    config := [];
    var item: Option<string> := None;
    var i := 0;
    while i < |args|
      invariant 0 <= i <= |args|
      invariant Run(config, item, args[i..]) == ParseCliArgs(args)
    {
      var configKey := ArgKey(args[i]);
      if item.Some? {
        if configKey.None? {
          config := Put(config, item.value, Str(args[i]));
        }
        item := None;
      } else {
        if configKey.Some? {
          item := configKey;
        }
      }
      assert args[i..][1..] == args[i + 1..];
      i := i + 1;
    }
  }

  /** The reading of the arguments as flag/value pairs, front to back: a flag and the
      argument after it are taken together, and assign the value when it is not a flag
      itself; any other argument is skipped alone. */
  function Assignments(args: seq<string>): Partial
    decreases |args|
  {
    if |args| == 0 then []
    else match ArgKey(args[0])
      case None => Assignments(args[1..])
      case Some(k) =>
        if |args| == 1 then []
        else (if ArgKey(args[1]).None? then [(k, Str(args[1]))] else []) + Assignments(args[2..])
  }

  /** The loop with no key pending is the pair reading. */
  lemma {:induction false} RunIsAssignments(config: Partial, args: seq<string>)
    ensures Run(config, None, args) == PutAll(config, Assignments(args))
    decreases |args|
  {
    if |args| > 0 {
      match ArgKey(args[0])
      case None =>
        RunIsAssignments(config, args[1..]);
      case Some(k) =>
        if |args| > 1 {
          var c := if ArgKey(args[1]).None? then Put(config, k, Str(args[1])) else config;
          var first := if ArgKey(args[1]).None? then [(k, Str(args[1]))] else [];
          assert args[1..][1..] == args[2..];
          assert args[1..][0] == args[1];
          RunIsAssignments(c, args[2..]);
          PutAllConcat(config, first, Assignments(args[2..]));
          if ArgKey(args[1]).None? {
            assert first[1..] == [];
          }
          assert PutAll(config, first) == c;
        }
    }
  }

  /** Every pair assigns one of the two source options an argument that is not a flag. */
  lemma {:induction false} AssignmentsWellFormed(args: seq<string>)
    ensures forall j :: 0 <= j < |Assignments(args)| ==>
      && IsSource(Assignments(args)[j].0)
      && Assignments(args)[j].1.Str?
      && Assignments(args)[j].1.s in args
      && ArgKey(Assignments(args)[j].1.s).None?
    decreases |args|
  {
    if |args| > 0 {
      if ArgKey(args[0]).None? || |args| == 1 {
        AssignmentsWellFormed(args[1..]);
      } else {
        AssignmentsWellFormed(args[2..]);
      }
    }
  }

  /** `parseCLIArgs` is the pair reading carried out on an empty object. */
  lemma ParseCliArgsPairs(args: seq<string>)
    ensures ParseCliArgs(args) == PutAll([], Assignments(args))
  {
    RunIsAssignments([], args);
  }

  /** What `parseCLIArgs` returns: an object with at most the two source options, each
      holding the value of its last flag/value pair, which is an argument that is not
      itself a flag. */
  lemma ParseCliArgsResult(args: seq<string>, k: string)
    ensures DistinctKeys(ParseCliArgs(args))
    ensures Get(ParseCliArgs(args), k) == LastFor(Assignments(args), k)
    ensures k in Keys(ParseCliArgs(args)) ==> IsSource(k)
    ensures var v := Read(ParseCliArgs(args), k);
      v.Undefined? || (v.Str? && v.s in args && ArgKey(v.s).None?)
  {
    var xs := Assignments(args);
    ParseCliArgsPairs(args);
    AssignmentsWellFormed(args);
    PutAllDistinct([], xs);
    PutAllLast([], xs, k);
    if LastFor(xs, k).Some? {
      var j :| 0 <= j < |xs| && xs[j] == (k, LastFor(xs, k).value);
    }
  }

  /** A flag is recognised after any prefix of two UTF-16 code units (two characters
      of the Basic Multilingual Plane, or one outside it) and in any letter case. */
  lemma FlagAnyPrefixAnyCase(p: string, w: string)
    requires Utf16Length(p) == 2
    ensures AsciiLower(w) == "proto-path" ==> ArgKey(p + w) == Some(ProtoPath)
    ensures AsciiLower(w) == "git-repository" ==> ArgKey(p + w) == Some(ProtoGitRepository)
  {
    Utf16SuffixAfter(p, w);
  }

  /** An argument whose second character lies outside the Basic Multilingual Plane is
      cut inside that character's surrogate pair and names no flag, whatever follows. */
  lemma FlagCutInsidePair(b: char, c: char, w: string)
    requires Utf16Width(b) == 1 && Utf16Width(c) == 2
    ensures ArgKey([b, c] + w).None?
  {
    Utf16SuffixSplitsPair(b, c, w);
  }

  /** A flag followed by another flag gives no value to either: the second takes the
      first one's value slot. A flag followed by a value assigns it. */
  lemma FlagAfterFlag(flag: string, other: string, v: string)
    requires ArgKey(flag).Some? && ArgKey(other).Some? && ArgKey(v).None?
    ensures ParseCliArgs([flag, other, v]) == []
    ensures ParseCliArgs([flag, v]) == [(ArgKey(flag).value, Str(v))]
  {
    var k := ArgKey(flag).value;
    var empty: Partial := [];
    var one := [flag, other, v];
    assert one[1..] == [other, v] && one[1..][1..] == [v] && [v][1..] == [];
    assert Run(empty, None, [v]) == Run(empty, None, []) == empty;
    assert Run(empty, Some(k), [other, v]) == Run(empty, None, [v]);
    assert Run(empty, None, one) == Run(empty, Some(k), [other, v]);
    var two := [flag, v];
    assert two[1..] == [v];
    var put := Put(empty, k, Str(v));
    assert put == [(k, Str(v))];
    assert Run(empty, Some(k), [v]) == Run(put, None, []) == put;
    assert Run(empty, None, two) == Run(empty, Some(k), [v]);
  }

  // ---------------------------------------------------------------------------
  // mergeConfigs

  predicate IsSource(k: string) {
    k == ProtoPath || k == ProtoGitRepository
  }

  /** The object without the two source options: the rest of a destructuring. */
  function WithoutSources(o: Partial): Partial
    decreases |o|
  {
    if |o| == 0 then []
    else (if IsSource(o[0].0) then [] else [o[0]]) + WithoutSources(o[1..])
  }

  /** The rest keeps the value of every other property. */
  lemma {:induction false} WithoutSourcesGet(o: Partial, k: string)
    requires DistinctKeys(o) && !IsSource(k)
    ensures Get(WithoutSources(o), k) == Get(o, k)
    decreases |o|
  {
    if |o| > 0 {
      var rest := WithoutSources(o[1..]);
      var r := WithoutSources(o);
      DistinctTail(o);
      WithoutSourcesGet(o[1..], k);
      if !IsSource(o[0].0) {
        assert r == [o[0]] + rest;
        assert r[1..] == rest;
        if k != o[0].0 {
          GetTail(r, k);
          GetTail(o, k);
        }
      } else {
        assert r == rest;
        GetTail(o, k);
      }
    }
  }

  /** The rest of an object is an object: its keys stay distinct. */
  lemma {:induction false} WithoutSourcesDistinct(o: Partial)
    requires DistinctKeys(o)
    ensures DistinctKeys(WithoutSources(o))
    decreases |o|
  {
    if |o| > 0 {
      var rest := WithoutSources(o[1..]);
      DistinctTail(o);
      WithoutSourcesDistinct(o[1..]);
      if !IsSource(o[0].0) {
        WithoutSourcesKeys(o[1..], o[0].0);
        assert o[0].0 !in Keys(o[1..]) by {
          assert forall j :: 0 <= j < |o[1..]| ==> Keys(o[1..])[j] == o[j + 1].0;
        }
        DistinctCons(o[0], rest);
        assert WithoutSources(o) == [o[0]] + rest;
      } else {
        assert WithoutSources(o) == rest;
      }
    }
  }

  /** `mergeConfigs(cliArgs, configFile)`: the defaults, then the file's properties
      except the two source options, then each source option from the file unless the
      arguments name the other source, then the arguments. An absent file is `{}`. */
  function MergeConfigs(cli: Partial, file: Option<Partial>): Partial {
    var f := file.GetOr([]);
    PutAll(SourceLayer(cli, f, FileLayer(f)), cli)
  }

  /** `{ ...defaultConfig, ...restOfConfigFile }`. */
  function FileLayer(f: Partial): Partial {
    PutAll(DefaultObject, WithoutSources(f))
  }

  /** The two source options written over `m`: the file's, unless the arguments give
      a truthy value for the other source. */
  function SourceLayer(cli: Partial, f: Partial, m: Partial): Partial {
    var path := if IsTruthy(Read(cli, ProtoGitRepository)) then Undefined else Read(f, ProtoPath);
    var repo := if IsTruthy(Read(cli, ProtoPath)) then Undefined else Read(f, ProtoGitRepository);
    Put(Put(m, ProtoPath, path), ProtoGitRepository, repo)
  }

  lemma FileLayerGet(f: Partial, k: string)
    requires DistinctKeys(f) && !IsSource(k)
    ensures Read(FileLayer(f), k) == if k in Keys(f) then Read(f, k) else Read(DefaultObject, k)
  {
    WithoutSourcesDistinct(f);
    WithoutSourcesKeys(f, k);
    WithoutSourcesGet(f, k);
    PutAllGet(DefaultObject, WithoutSources(f), k);
  }

  lemma SourceLayerGet(cli: Partial, f: Partial, m: Partial, k: string)
    ensures Read(SourceLayer(cli, f, m), k) ==
      if k == ProtoPath then (if IsTruthy(Read(cli, ProtoGitRepository)) then Undefined else Read(f, ProtoPath))
      else if k == ProtoGitRepository then (if IsTruthy(Read(cli, ProtoPath)) then Undefined else Read(f, ProtoGitRepository))
      else Read(m, k)
  {
    assert ProtoPath != ProtoGitRepository;
  }

  /** What a merged property reads as: the argument's when given; otherwise, for a
      source option, the file's unless the arguments name the other source; for any
      other key, the file's when present and else the default. */
  lemma MergeConfigsRead(cli: Partial, file: Option<Partial>, k: string)
    requires DistinctKeys(cli) && DistinctKeys(file.GetOr([]))
    ensures var f := file.GetOr([]);
      Read(MergeConfigs(cli, file), k) ==
        if k in Keys(cli) then Read(cli, k)
        else if k == ProtoPath then
          (if IsTruthy(Read(cli, ProtoGitRepository)) then Undefined else Read(f, ProtoPath))
        else if k == ProtoGitRepository then
          (if IsTruthy(Read(cli, ProtoPath)) then Undefined else Read(f, ProtoGitRepository))
        else if k in Keys(f) then Read(f, k)
        else Read(DefaultObject, k)
  {
    var f := file.GetOr([]);
    var m := SourceLayer(cli, f, FileLayer(f));
    PutAllGet(m, cli, k);
    SourceLayerGet(cli, f, FileLayer(f), k);
    if !IsSource(k) { FileLayerGet(f, k); }
  }

  /** The merged object has every default key, in the default order at the front,
      both source options, and otherwise exactly the keys of the file and the
      arguments. */
  lemma MergeConfigsKeys(cli: Partial, file: Option<Partial>, k: string)
    ensures var r := MergeConfigs(cli, file);
      && |DefaultObject| <= |r|
      && (forall i :: 0 <= i < |DefaultObject| ==> r[i].0 == DefaultObject[i].0)
      && (k in Keys(r) <==>
            (k in Keys(DefaultObject) || IsSource(k) || k in Keys(file.GetOr([])) || k in Keys(cli)))
  {
    var f := file.GetOr([]);
    var base := FileLayer(f);
    var m2 := SourceLayer(cli, f, base);
    PutAllKeepsOrder(DefaultObject, WithoutSources(f));
    SourceLayerKeys(cli, f, base);
    PutAllKeepsOrder(m2, cli);
    WithoutSourcesKeys(f, k);
    PutAllHasKey(DefaultObject, WithoutSources(f), k);
    PutAllHasKey(m2, cli, k);
  }

  lemma SourceLayerKeys(cli: Partial, f: Partial, m: Partial)
    ensures |m| <= |SourceLayer(cli, f, m)|
    ensures forall i :: 0 <= i < |m| ==> SourceLayer(cli, f, m)[i].0 == m[i].0
    ensures forall k :: k in Keys(SourceLayer(cli, f, m)) <==> k in Keys(m) || IsSource(k)
  {
    var path := if IsTruthy(Read(cli, ProtoGitRepository)) then Undefined else Read(f, ProtoPath);
    var repo := if IsTruthy(Read(cli, ProtoPath)) then Undefined else Read(f, ProtoGitRepository);
    PutKeepsOrder(m, ProtoPath, path);
    PutKeepsOrder(Put(m, ProtoPath, path), ProtoGitRepository, repo);
  }

  lemma {:induction false} WithoutSourcesKeys(o: Partial, k: string)
    ensures k in Keys(WithoutSources(o)) <==> k in Keys(o) && !IsSource(k)
    decreases |o|
  {
    if |o| > 0 {
      var rest := WithoutSources(o[1..]);
      WithoutSourcesKeys(o[1..], k);
      KeysCons(o, k);
      var r := WithoutSources(o);
      if !IsSource(o[0].0) {
        assert r[1..] == rest;
        KeysCons(r, k);
      } else {
        assert r == rest;
      }
    }
  }

  /** Naming one source on the command line switches the file's other source off. */
  lemma CommandLineSourceWins(args: seq<string>, file: Option<Partial>)
    requires DistinctKeys(file.GetOr([]))
    requires IsTruthy(Read(ParseCliArgs(args), ProtoGitRepository)) && ProtoPath !in Keys(ParseCliArgs(args))
    ensures Read(MergeConfigs(ParseCliArgs(args), file), ProtoPath) == Undefined
    ensures Read(MergeConfigs(ParseCliArgs(args), file), ProtoGitRepository) == Read(ParseCliArgs(args), ProtoGitRepository)
  {
    var cli := ParseCliArgs(args);
    ParseCliArgsResult(args, ProtoPath);
    assert ProtoGitRepository in Keys(cli);
    MergeConfigsRead(cli, file, ProtoPath);
    MergeConfigsRead(cli, file, ProtoGitRepository);
  }
}
