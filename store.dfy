/**
 * The data the API commands read: source units, graph artifacts (defs, refs,
 * docs), the repository handle, and the build store of one commit, seen as
 * in-memory values instead of files.
 */
module Store {
  import opened Wrappers

  /** What can go wrong while reading the store or running a build step. */
  datatype Error =
    | ManifestOpenFailed(path: string)
    | ManifestDecodeFailed(path: string)
    | GraphOpenFailed(key: UnitKey)
    | GraphDecodeFailed(key: UnitKey)
    | StepFailed(msg: string)

  /** The two fields a unit's data files are named after. */
  datatype UnitKey = UnitKey(name: string, unitType: string)

  /** A source unit manifest: name, type and repository-relative member files. */
  datatype SourceUnit = SourceUnit(name: string, unitType: string, files: seq<string>)
  {
    function Key(): UnitKey { UnitKey(name, unitType) }
  }

  /**
   * A reference: the byte span [start, end] of `file` that points to the def
   * at `defPath` in unit (`defUnit`, `defUnitType`) of repository `defRepo`.
   * An empty target field means "the same as the referencing side".
   */
  datatype Ref = Ref(
    defRepo: string,
    defUnitType: string,
    defUnit: string,
    defPath: string,
    file: string,
    start: int,
    end: int)

  /** A definition inside its unit; `data` stands for the language-specific payload. */
  datatype Def = Def(path: string, name: string, kind: string, file: string, data: string)

  /** Rendered documentation for the def with the same path. */
  datatype Doc = Doc(path: string, format: string, data: string)

  /** The graph artifact a toolchain writes for one unit. */
  datatype Graph = Graph(defs: seq<Def>, refs: seq<Ref>, docs: seq<Doc>)

  /** A stored file that exists: it either decodes to a value or does not. */
  datatype Artifact<+T> = Malformed | Decoded(value: T)

  /** The repository handle: root directory, URI and commit. */
  datatype Repo = Repo(rootDir: string, uri: string, commitID: string)

  /**
   * The build store of the current commit. `walk` lists, in walk order, every
   * path under the commit directory; `unitSuffix` is the file-name suffix of
   * unit manifests; a path or key missing from `manifests` or `graphs` is a
   * file that cannot be opened.
   */
  datatype BuildStore = BuildStore(
    walk: seq<string>,
    unitSuffix: string,
    manifests: map<string, Artifact<SourceUnit>>,
    graphs: map<UnitKey, Artifact<Graph>>)

  /** Go's strings.HasSuffix. */
  predicate HasSuffix(s: string, suffix: string)
  {
    |suffix| <= |s| && s[|s| - |suffix|..] == suffix
  }

  /** Open and decode the unit manifest stored at `path`. */
  function OpenManifest(store: BuildStore, path: string): Result<SourceUnit, Error>
  {
    if path !in store.manifests then Err(ManifestOpenFailed(path))
    else match store.manifests[path]
      case Malformed => Err(ManifestDecodeFailed(path))
      case Decoded(u) => Ok(u)
  }

  /** Open and decode the graph artifact of the unit named by `key`. */
  function OpenGraph(store: BuildStore, key: UnitKey): Result<Graph, Error>
  {
    if key !in store.graphs then Err(GraphOpenFailed(key))
    else match store.graphs[key]
      case Malformed => Err(GraphDecodeFailed(key))
      case Decoded(g) => Ok(g)
  }

  function ManifestLoader(store: BuildStore): string -> Result<SourceUnit, Error>
  {
    path => OpenManifest(store, path)
  }

  function GraphLoader(store: BuildStore): SourceUnit -> Result<Graph, Error>
  {
    (u: SourceUnit) => OpenGraph(store, u.Key())
  }
}
