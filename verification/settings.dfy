/** The generator's configuration, its defaults, and the functions it takes from outside:
    the change-case library and the Unicode `Letter` category. */
module Settings {
  import opened Maybe
  import opened Assoc

  /** `TypeNameCase`: which change-case function names a generated type. */
  datatype NameCase = Camel | Constant | Pascal | Snake

  /** `generateEnumType`: unset, `'union'` or `'enum'`. Only `'enum'` turns top-level
      enums into enum declarations. */
  datatype EnumType = Unset | UnionType | EnumDeclaration

  /** Functions whose bodies lie outside the model, passed in as values. */
  datatype Externals = Externals(
    camelCase: string -> string,
    constantCase: string -> string,
    pascalCase: string -> string,
    snakeCase: string -> string,
    isLetter: char -> bool)

  /** `getCaseFunction`. */
  function CaseFunction(ext: Externals, c: NameCase): string -> string {
    match c
    case Camel => ext.camelCase
    case Constant => ext.constantCase
    case Pascal => ext.pascalCase
    case Snake => ext.snakeCase
  }

  /** The configuration the generator reads. An absent list or record is empty; an
      absent `generateIndexFile` is `false`; an absent header template is `None`. */
  datatype Config = Config(
    tempDir: string,
    outputPath: string,
    namespacesToIgnore: seq<string>,
    typeNameCase: NameCase,
    enumNameCase: NameCase,
    typeNameTemplate: string,
    enumNameTemplate: string,
    typeNameIgnoreParentNodeNames: seq<string>,
    generatedTypeOverrides: Assoc<string>,
    generatedTypeComments: Assoc<string>,
    generateIndexFile: bool,
    generateEnumType: EnumType,
    fileHeaderCommentTemplate: Option<string>,
    indexFileHeaderCommentTemplate: Option<string>)

  /** The keys of the two records are distinct, as in any JavaScript object. */
  predicate ConfigValid(cfg: Config) {
    DistinctKeys(cfg.generatedTypeOverrides) && DistinctKeys(cfg.generatedTypeComments)
  }

  /** The values of `defaultConfig`. */
  const DefaultTempDir: string := "__proto-to-ts-temp"
  const DefaultOutputPath: string := "generated_from_proto"
  const DefaultFieldNameKeepCase: bool := false
  const DefaultGenerateIndexFile: bool := true
  const DefaultNameTemplate: string := "{{parentNodeNames}}{{typeName}}"
  const DefaultNameCase: NameCase := Pascal

  /** The generator's configuration when nothing overrides `defaultConfig`. */
  const DefaultConfig: Config := Config(
    DefaultTempDir, DefaultOutputPath, [], DefaultNameCase, DefaultNameCase,
    DefaultNameTemplate, DefaultNameTemplate, [], [], [], DefaultGenerateIndexFile,
    Unset, None, None)
}
