# convert-proto-to-ts, modelled in Dafny

This project models the core of convert-proto-to-ts, a tool that turns resolved
protobuf definitions into TypeScript type declarations. It covers two files:

- `src/generator.ts` is the `ProtoToTypeScriptGenerator`. It contains:
  - the template substitution (`replaceVariables`);
  - type naming (`buildTypeName`, `buildTypeCacheKey`, `buildGeneratedTypeName`,
    `buildGeneratedFilename`);
  - the mapping of a field to a TypeScript type, through the well-known type table and
    the type cache;
  - enum and interface declarations, with oneof comments;
  - the traversal that collects the top-level types (`collectTypes`);
  - the grouping of types per output file (`getTypesByFile`);
  - the assembly of each output file from its header, its imports and its declarations,
    plus the index file (`generateTypeDefinitionsByFile`).
- `src/config.ts` holds `defaultConfig`, `mergeConfigs` (command line over configuration
  file over defaults) and `parseCLIArgs`.

The model keeps the program's own data flow. A few structures are represented differently:

- The protobufjs reflection tree becomes an arena, `Schema.Arena`, in which parents come
  before their children.
- JavaScript objects and `Map`s become insertion-ordered association lists, `Assoc`.
  This keeps key order: `for … in`, `Object.values`, `Object.keys` and `Map` iteration
  all follow it.
- TypeScript AST nodes become a small declaration datatype, `Syntax.Decl` and
  `Syntax.TypeExpr`. The printer is not modelled.
- Three things the model cannot see are passed in as function values of
  `Settings.Externals`: the change-case functions, `camelCase` for field names and the
  Unicode `Letter` class. Every property holds for any choice of these functions.

Files, in dependency order:

| file | module | contents |
|---|---|---|
| maybe.dfy | Maybe | `Option`, JavaScript truthiness of optional strings |
| seqs.dfy | Seqs | `map`, reversal, first-seen order of a list |
| assoc.dfy | Assoc | ordered property lists: get, put, spread |
| text.dfy | Text | trim, `indexOf`, first-occurrence `replace`, `split`/`join`, ASCII lower case |
| template.dfy | Template | `replaceVariables` as a scan of `{{ name }}` placeholders |
| paths.dfy | Paths | POSIX `normalize`, `join`, `relative`, and `getRelativePath` |
| schema.dfy | Schema | the reflection tree |
| settings.dfy | Settings | `Config`, `defaultConfig`, `getCaseFunction` |
| naming.dfy | Naming | type names, cache keys, generated file names, enum member keys |
| syntax.dfy | Syntax | the TypeScript declarations the generator builds |
| fields.dfy | Fields | well-known types, field types, members, enums, interfaces |
| collect.dfy | Collect | `collectTypes`, `getTypesByFile` |
| assemble.dfy | Assemble | `generateTypeDefinitionsByFile` |
| cliconfig.dfy | CliConfig | `parseCLIArgs`, `mergeConfigs`, `defaultConfig` as an object |
| example.dfy | Example | the naming example from the documentation of `typeNameIgnoreParentNodeNames` |

Where the code and the documentation disagree, the model follows the code:

- A map field whose value type is an enum nested in a message (so absent from the type
  cache) becomes the inline union of the enum's values. The code does not produce
  `Record<key, …>` here, because the enum branch of `convertFieldType` comes before
  the map branch.
- A map whose value is a nested message becomes `Record<key, undefined>`.
- Import and index specifiers drop the first `.ts` of the path, which is not always the
  extension. A sibling `a.tsv.ts` is imported from `./av.ts`, a file that is not
  generated. The model keeps this behaviour (`Assemble.DottedSiblingSpecifier`).
- `parseCLIArgs` drops the first two UTF-16 code units of every argument, whatever they
  are. So `xxproto-path` is read as a flag, just as `--proto-path` is. A character outside
  the Basic Multilingual Plane takes two code units: one such character can stand for
  both dashes, and in second place it is cut in half, so the argument names no flag.
- Arguments are lower-cased with `toLowerCase`. The model lower-cases ASCII only. This is
  exact for the two flag names: no non-ASCII character lower-cases to a letter of
  `proto-path` or `git-repository`. (The Kelvin sign lower-cases to `k`, which neither
  name contains.)

## Model

| member | source | states |
|---|---|---|
| Template.MatchIsPlaceholder | src/generator.ts:37 | what one match of the placeholder pattern consumes is exactly `{{`, optional white space, the variable name, optional white space, `}}` |
| Template.SlotMatches | src/generator.ts:37 | a placeholder of the variable, with any white space inside the braces, is replaced by the value, and scanning resumes after it |
| Template.SlotMisses | src/generator.ts:37 | a placeholder of another variable is left as written |
| Template.OnePass | src/generator.ts:37 | one `replaceAll` replaces every placeholder of one variable and leaves all other text unchanged |
| Template.ReplaceVariablesFills | src/generator.ts:28-41 | `replaceVariables` gives the trimmed text in which every placeholder of a supplied variable holds its value, padded with one space on each side when asked, and nothing else changes |
| Template.SubstituteFills | src/generator.ts:31-38 | the per-variable loop, before trimming, fills the placeholders of every supplied variable |
| Template.FillNothing | src/generator.ts:31-38 | with no variables the template is unchanged |
| Text.Trim | src/generator.ts:40 | `trim()` gives the unique slice with no white space at either end and only white space outside it |
| Text.TrimUnique | src/generator.ts:40 | any slice with only white space around it and none at its own ends is what `trim()` returns |
| Text.ReplaceFirst | src/generator.ts:366-367 | `replace` with a string pattern replaces only the first occurrence, and leaves the text alone when there is none |
| Paths.RelativeImportSegments | src/generator.ts:43-53 | the specifier is the climb from the source's directory to the target's, or `.` when there is none, followed by the target's file name |
| Paths.RelativeImportResolves | src/generator.ts:43-53 | resolving the specifier against the importing file's directory gives back the target path: the import points at the file it names |
| Paths.RelativeImportSibling | src/generator.ts:43-53 | a target in the same directory is imported as `./` plus its file name |
| Paths.ClimbResolves | src/generator.ts:50 | the `..` segments and the descent that `path.relative` produces lead from one directory to the other |
| Paths.JoinPathsPlain | src/generator.ts:489 | `path.join` of two plain relative paths is the two joined by `/` |
| Naming.ParentNamesKept | src/generator.ts:84-93 | the parent names are the ancestors' names, root first, without the ignored ones |
| Naming.ParentNamesWalk | src/generator.ts:84-93 | the loop that climbs the parent chain and `unshift`s each kept name computes the parent names |
| Naming.BuildTypeNameFills | src/generator.ts:78-105 | the type name is the case function applied to the trimmed template, whose `parentNodeNames` placeholders hold the space-joined parent names and whose `typeName` placeholders hold the node's name, each padded |
| Naming.DefaultTypeName | src/generator.ts:78-105 | under the default template the case function receives the parent names and the type name, separated by spaces and trimmed |
| Naming.CacheKeyDecodes | src/generator.ts:107-113 | the cache key is the file name, then the first `:`, then the default-cased name, and both parts can be read back |
| Naming.CacheKeyCollision | src/generator.ts:107-113 | two types share a cache entry exactly when their file names and default names agree, provided both file names or both default names are free of `:` |
| Naming.DefaultGeneratedNameIsKeyName | src/generator.ts:356-361 | with the default naming settings, the generated name is the name inside the cache key |
| Naming.SourceFilename | src/generator.ts:365 | a type with a file name of its own is placed by that name |
| Naming.GeneratedFilenameOfClonedFile | src/generator.ts:363-370 | a proto file inside the clone directory is written to the same relative path with `.ts` for `.proto`, provided `.proto` occurs nowhere else in that path (the first `.proto` is the one replaced) |
| Naming.EnumKeyName | src/generator.ts:115-129 | the key is the value itself exactly when it does not start with a digit or white space and every character is a letter, digit, `$` or `_`; otherwise it is the value in single quotes |
| Naming.EnumKeyNameScan | src/generator.ts:115-129 | the early-returning character loop decides the same key |
| Naming.EnumMemberKeyStutter | src/generator.ts:238 | a value whose pascal-cased form starts with the enum's pascal-cased name loses that prefix |
| Naming.EnumMemberKeyPlain | src/generator.ts:238 | a value that does not contain the enum's name keeps its pascal-cased form |
| Naming.EnumMemberKeyInfix | src/generator.ts:237-243 | the enum's pascal-cased name is cut out of the value's pascal-cased form where it first occurs, at the start, in the middle or at the end, and the rest is keyed as `getEnumKeyName` keys it |
| Fields.OverridesWin | src/generator.ts:141-176 | a configured override replaces the well-known mapping of its type; any other type keeps the table's mapping |
| Fields.WellKnownMapped | src/generator.ts:141-176 | every well-known type that is not overridden maps to a non-empty TypeScript type |
| Fields.FieldTypeMapping | src/generator.ts:179-194 | a truthy mapping wins. Otherwise a resolved type found in the cache yields its generated name with exactly one import request for that name and file. Otherwise the result is `undefined` with no request |
| Fields.ConvertFieldType | src/generator.ts:196-229 | a repeated field yields an array type, and every import requested names a cached type |
| Fields.RepeatedWraps | src/generator.ts:224-226 | a repeated field's type is the array of the same field's type unrepeated, with the same imports |
| Fields.UncachedEnumInline | src/generator.ts:200-205 | an enum type that is not in the cache becomes the inline union of its values, and nothing is imported |
| Fields.MappedScalar | src/generator.ts:206-221 | a non-map field with a mapped type becomes a reference to the mapped type |
| Fields.CachedReference | src/generator.ts:185-192 | a field whose resolved type is cached with a non-empty generated name references that name and imports it from the generated file |
| Fields.CachedEmptyName | src/generator.ts:185-221 | a cached type with an empty generated name is still requested as an import under the empty name, and the field becomes the nested object type of a message or `any` |
| Fields.UnknownIsAny | src/generator.ts:217-221 | an unmapped, unresolved field becomes `any` |
| Fields.MapRecord | src/generator.ts:208-215 | a map field becomes `Record<key type, value type>`, each side the mapping of its type as a template literal prints it (`undefined` when unmapped); the key is looked up with the value's resolved type, and the key's import requests follow the value's |
| Fields.UncachedMessageInline | src/generator.ts:217-218 | an unmapped non-map field of an uncached message type becomes that message's inline type literal |
| Fields.GroupBracketed | src/generator.ts:278-296 | in a oneof group, only the first member carries the start comment and only the last carries the end comment |
| Fields.Proto3OptionalUnbracketed | src/generator.ts:278 | a proto3 `optional` field gets no oneof comments |
| Fields.FieldMembersAt | src/generator.ts:301-313 | the members of a nested type are the field members, one per field, in field order |
| Fields.NestedType | src/generator.ts:301-313 | a nested message becomes a type literal with one member per field |
| Fields.InterfaceAddsTypeComments | src/generator.ts:315-340 | an interface member is the field member with the configured comment for its type added in front, and it asks for the same imports |
| Fields.EnumDefinitionForms | src/generator.ts:231-262 | with a name, an enum becomes an enum declaration when `generateEnumType` is `'enum'` and a type alias otherwise; without a name it is an inline union. Every form lists exactly the enum's values |
| Collect.Opens | src/generator.ts:377-397 | the traversal visits only children of the node |
| Collect.TypeCacheExact | src/generator.ts:372-406 | the type cache has distinct keys; every entry is a message or enum outside a message, reached by the traversal and registered under its own key, name and file; and every such reachable type has an entry |
| Collect.CollectIsPutAll | src/generator.ts:372-406 | the traversal is a run of `typeCache[key] = entry` assignments, one per registrable node in visit order: a node's children first, in order, then the node itself |
| Collect.TypeCacheOrder | src/generator.ts:372-406 | the cache keys come in the order the traversal first assigned them, and a key assigned for several nodes holds the entry of the node visited last |
| Collect.IgnoredNamespaceHidden | src/generator.ts:385-391 | nothing inside an ignored namespace is collected |
| Collect.IgnoredMessageStillCollected | src/generator.ts:385-405 | a message whose name is on the ignore list is itself still collected, though its children are not visited |
| Collect.ReachesTrans | src/generator.ts:372-406 | reachability by the traversal is transitive |
| Collect.GroupByFileIsFilter | src/generator.ts:408-416 | the group of a file is the cached types with that path, in cache order; a path with no type has no group |
| Collect.GroupByFileOrder | src/generator.ts:408-416 | files come in the order their first type appears in the cache |
| Assemble.AddImportsExact | src/generator.ts:432-440 | the import adder records exactly the requested pairs whose file is not the current file, each file and name once |
| Assemble.FileImportsExact | src/generator.ts:428-440 | a file imports exactly the names its declarations reference from other files, and every import names a collected type |
| Assemble.TypeDeclShape | src/generator.ts:442-456 | each collected type gives its declaration followed by a line break: an interface with one member per field, or an enum in the configured form listing its values. An enum asks for no imports |
| Assemble.BodyShape | src/generator.ts:442-456 | the body of a file is the declarations of its types, two statements each, in group order |
| Assemble.AddImportsOrder | src/generator.ts:432-440 | the import map lists the requested files other than the current one, each once, in order of first request, and each file's names once each in order of first request |
| Assemble.FileImportDeclsOrder | src/generator.ts:442-470 | a file's import declarations name the files its declarations request, last first requested first because each is `unshift`ed, each with its names in order of first request |
| Assemble.SiblingSpecifier | src/generator.ts:467 | a generated file `stem.ts` in the same directory, whose stem has no dot, is imported as `./stem` |
| Assemble.SiblingSpecifierFirstTs | src/generator.ts:467 | a sibling named `stem.ts` followed by more text, with a dot-free stem, is imported as `./stem` followed by that text: the first `.ts` is removed, not the extension |
| Assemble.DottedSiblingSpecifier | src/generator.ts:467 | a sibling `a.tsv.ts` (generated from `a.tsv.proto`) is imported from `./av.ts` |
| Assemble.FileLayout | src/generator.ts:428-495 | an output file is written at `outputPath` joined with its path. It holds the header comment and a line break exactly when a header template is set, then the imports, then a line break if there are imports, then the body |
| Assemble.GenerateLayout | src/generator.ts:418-532 | there is one output file per grouped path, in first-seen order, plus the index file when asked for. The index re-exports every generated file, in order, by `./` and its path with its first `.ts` removed |
| Assemble.EveryTypeHasAFile | src/generator.ts:408-416 | every cached type lands in the group of its own path |
| Assemble.GroupedTypesRegistered | src/generator.ts:442-443 | every type in a file's group is a reached, registrable type with that file as its path |
| CliConfig.DefaultObjectAgrees | src/config.ts:148-157 | `defaultConfig` as an object carries the generator's default values |
| CliConfig.DefaultKeysDistinct | src/config.ts:148-157 | `defaultConfig` has distinct keys and neither source option |
| CliConfig.FlagKey | src/config.ts:202-205 | `git-repository` names `protoGitRepository`, `proto-path` names `protoPath`, and no other flag names a configuration key |
| CliConfig.ParseCliArgsLoop | src/config.ts:207-228 | the indexed loop with its pending key computes the parsed configuration |
| CliConfig.ParseCliArgsPairs | src/config.ts:207-228 | parsing assigns, in order, each flag's following argument when that argument is not itself a flag |
| CliConfig.ParseCliArgsResult | src/config.ts:207-228 | the parsed object has distinct keys, only the two source options, and for each the value following its last assigning flag, which is an argument that is not a flag |
| CliConfig.FlagAnyPrefixAnyCase | src/config.ts:212 | any prefix of two UTF-16 code units, and any letter case, select a flag |
| CliConfig.FlagCutInsidePair | src/config.ts:212 | an argument whose second character takes two UTF-16 code units is cut inside it and names no flag |
| Text.Utf16SuffixAfter | src/config.ts:212 | `substring` at the UTF-16 length of a prefix leaves exactly the rest |
| CliConfig.FlagAfterFlag | src/config.ts:214-220 | a flag directly followed by another flag is dropped together with it, and a flag followed by a value assigns that value |
| CliConfig.MergeConfigsRead | src/config.ts:159-169 | command-line options win. Otherwise a source option is `undefined` when the command line sets the other source option, else it is the file's value. Other options come from the file, then the defaults |
| CliConfig.MergeConfigsKeys | src/config.ts:159-169 | the merged object starts with the default keys in order, and has exactly the default, source, file and command-line keys |
| CliConfig.CommandLineSourceWins | src/config.ts:159-169 | a `--git-repository` on the command line hides the file's `protoPath` |
| Example.ExampleParentNames | src/config.ts:94-100 | for `your_app.services.auth.v1.RegisterRequest`, ignoring `your_app` and `services` leaves the parent names root, `auth` and `v1` |
| Example.ExampleTypeName | src/config.ts:94-100 | the pascal case function then receives `auth v1  RegisterRequest` |
| Example.ExampleFilename | src/config.ts:94-100 | the cloned `your_app/services/auth/v1/auth.proto` is generated as `your_app/services/auth/v1/auth.ts` |

## Left out

- File output, the TypeScript printer and the generation timestamp are not modelled. A
  file is its path and its list of statements, and the timestamp is a parameter.
- `path.sep` is taken to be `/`, so the `replaceAll(path.sep, '/')` calls are identities.
  `path.relative` is modelled for relative paths below the working directory, which is
  where generated paths live. The working directory itself is not modelled.
- `replaceVariables` values are inserted literally. The `$` replacement patterns of
  `String.prototype.replaceAll` are not modelled.
- Template.ReplaceVariablesFills: covers ASCII-letter variable names, values without
  `{` and templates whose literal text holds no `{` (`Template.WellFormed`). Only such
  names occur in the program. A value or template text with a `{` of its own could form
  a new placeholder, and that case is not characterised.
- Template.SubstituteFills: the same limits; the template's literal text holds no `{`.
- Template.OnePass: the template's literal text holds no `{`, and the value holds none.
- Naming.BuildTypeNameFills: the template's literal text holds no `{`, and no node name
  holds one.
- Nested inline message types are expanded up to a fuel bound. When it runs out, the
  type is `Unexpanded`. A message that contains itself inline makes the source recurse
  without end, and the fuel bound stands in for that.
- `field.parent` is always the message that declares the field, so the check
  `field.parent instanceof protobuf.Type` holds for every field and is not modelled.
- `Object.keys` puts integer-like keys first. The model keeps plain insertion order, which
  matches for the file paths and names the program produces, since none of them is an
  integer.
- CliConfig.MergeConfigsKeys: states plain insertion order. Object spread also lists
  integer-like keys first, so for a configuration file with a key such as `"0"` the
  merged object lists that key before the default keys.
- Assemble.TypeDecl: gives nothing for a cache entry whose node is out of range. No
  collected entry is out of range (`Assemble.GroupedTypesRegistered`).
- `loadConfig`, `src/load.ts` and `src/cli.ts` are not part of this model. They find and
  import files, clone repositories and load protobuf definitions. The custom hooks and
  builders of `Config` are not part of this model either.
- A configuration file whose content is not an object is not modelled. `configFile || {}`
  is modelled with `None` standing for a missing file.
- Keys that the prototype chain answers are not modelled. The lookups are plain objects
  indexed by outside text, so a name such as `constructor` or `toString` reads an
  inherited member. This affects `CLI_ARGS_TO_CONFIG_KEY[...]` (an argument such as
  `--constructor`, src/config.ts:212), `this.wellKnownMappings[field.type]`
  (src/generator.ts:180) and `generatedTypeComments?.[field.type]`
  (src/generator.ts:325), where a message type named `constructor` gets an inherited
  function as a truthy mapping or comment, and `accum[curr.generatedPath]`
  (src/generator.ts:411) for an output path with such a name. The model reads only
  the object's own keys.
- The bodies of the change-case functions and of the Unicode `Letter` test are external.
  Every property holds for all of them.
- Assemble.SiblingSpecifier: covers only stems without a dot. A stem with a dot before
  a `ts` loses that `.ts` instead (`Assemble.SiblingSpecifierFirstTs`). Other dotted
  stems are not stated.
- Naming.CacheKeyCollision: says nothing when a file name and a default name both hold
  `:`. Then different types can share a key: a file `a:b` with a type named `c`, and a
  file `a` with a type named `b:c`, both give `a:b:c`.
- Naming.SourceFilename: its contract states only the case of a type with a file name of
  its own. The fallbacks to the parent's file name and to
  `proto_to_ts_unknown_file_name.proto` are in its definition but not in a lemma.
