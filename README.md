# srclib API query commands, modelled in Dafny

This project models the query logic of srclib's `api` commands
(`src/api_cmds.go`): `api list`, which lists every reference in a file, and
`api describe`, which finds the reference under a byte offset and resolves the
definition it points to. The file system, the network and the process
set-up around them are left out. The build store of one commit is an
in-memory value (`Store.BuildStore`). It holds:

- the paths the commit-directory walk yields, in walk order;
- the file-name suffix of source unit manifests;
- a map from manifest path to decoded `SourceUnit` (name, type, member files);
- a map from (unit name, unit type) to the unit's `Graph` of defs, refs and docs.

A path or key missing from a map is a file that cannot be opened. A
`Malformed` entry is a file that cannot be decoded.

Every Go loop is a Dafny `method` with loop invariants. Each method is proved
equal to a specification function. The source's guarantees are then proved
as lemmas about those functions:

- `Units`: `getSourceUnitsWithFile`, the unit lookup.
- `List`: the ref-filter loop of the list command.
- `Describe`: the describe command. It covers the first-match search, the
  defaulting of target fields, local def lookup with docs, and the remote
  fetch decision.
- `Build`: `ensureBuild`, the build decision.
- `Seqs`: the filters, first/last-match searches and load-all-or-first-error
  helpers that the specifications share.

`filepath.Clean` and `filepath.Join` are opaque, so they are function-valued
parameters (`clean`, `join`). `repo.URI()` is the `uri` field of the `Repo`
value. The configure and make steps, `Stat` of the commit directory and the
two remote calls are inputs. Each one says whether it failed, and the
remote calls also give what they returned. The model reports which build
steps were started and which remote requests were issued.

Every open or decode failure is returned as the command's error: a
manifest during the unit lookup (`src/api_cmds.go:126-133`), a graph during
listing (`src/api_cmds.go:193-200`) or search (`src/api_cmds.go:263-270`), or
the target unit's graph during local resolution (`src/api_cmds.go:308-315`).
Nothing is skipped and nothing falls back to the remote service; see
`Units.UnitsWithFileErrors`, `List.ListErrors`, `Describe.SearchStopsAtFailure`
and `Describe.LocalGraphFailureIsError`.

## Model

| member | source | states |
|---|---|---|
| `Build.EnsureBuild` | src/api_cmds.go:72-103 | the steps started and the error returned are those of the build decision below |
| `Build.BuildDecision` | src/api_cmds.go:79-100 | configure runs iff Stat reports not-exist, and any other Stat outcome skips it; make runs unless configure failed, and after configure; both steps get the repo URI, subdir "." and exe method "program"; a configure error is returned before make, otherwise make's error is returned |
| `Units.GetSourceUnitsWithFile` | src/api_cmds.go:106-143 | the walk, manifest decoding and per-unit file scan give exactly the decoded manifests, in manifest order, that list the cleaned file, or the first manifest's open/decode error |
| `Units.FindManifests` | src/api_cmds.go:112-120 | the manifest paths are the walked paths that end with the unit suffix, in walk order |
| `Units.ListsCleaned` | src/api_cmds.go:134-139 | the scan of one unit's files (stopping at the first hit) is true iff some file cleans to the cleaned query path |
| `Units.UnitsWithFileMembership` | src/api_cmds.go:122-140 | a unit is returned iff a walked manifest path with the unit suffix decodes to it and one of its files cleans to `Clean(filename)` |
| `Units.UnitsWithFileOrder` | src/api_cmds.go:123-140 | the result is a subsequence of the decoded manifests: manifest order is kept |
| `Units.UnitsWithFileCount` | src/api_cmds.go:134-139 | a matching unit occurs as many times as manifests decode to it, never more, even if it lists the file twice (the `break`); a non-matching unit never occurs |
| `Units.UnitsWithFileErrors` | src/api_cmds.go:124-133 | the lookup fails iff some manifest cannot be opened or decoded, with the first such manifest's error; no match is an empty list, not an error |
| `List.ListRefs` | src/api_cmds.go:188-206 | the nested loop returns the refs whose file equals the query file, unit after unit and in graph order, or the first graph open/decode error |
| `List.AppendRefsInFile` | src/api_cmds.go:201-205 | appends to the refs so far the graph's refs whose file is the query file, in graph order |
| `List.ListedRefsExact` | src/api_cmds.go:201-205 | a ref is listed iff its file is the query file and it is a ref of one of the units' graphs; there is no offset filtering |
| `List.ListedRefsOrder` | src/api_cmds.go:190-206 | the listing for units u1..un is the listing for u1..u(n-1) followed by un's matching refs in graph order |
| `List.ListErrors` | src/api_cmds.go:192-200 | the listing fails iff some unit's graph cannot be opened or decoded, and with the first such unit's error |
| `List.ApiList` | src/api_cmds.go:167-206 | the list command runs the build, the unit lookup and the ref listing in that order; each step's error is returned and stops the command |
| `Describe.FindRef` | src/api_cmds.go:257-283 | the labelled OuterLoop returns what Search specifies: the first ref, across units x refs, with `ref.File == File` and `Start <= StartByte <= End`, with empty DefUnit/DefUnitType set from the unit being scanned |
| `Describe.SearchNoMatch` | src/api_cmds.go:259-285 | the search finds nothing, without error, iff every unit's graph loads and no ref covers the offset (both bounds inclusive) |
| `Describe.SearchPicksFirstMatch` | src/api_cmds.go:271-281 | if every earlier unit misses and ref k is the first covering ref of unit i, that ref is chosen with unit i's defaults, whatever follows it |
| `Describe.SearchStopsAtFailure` | src/api_cmds.go:263-270 | a graph that fails to open or decode before any match aborts the search with its error |
| `Describe.ResolveLocal` | src/api_cmds.go:316-331 | the def loop (with break) and the doc loop (without) give the local resolution: first def with the path, the doc data, and the root-joined file |
| `Describe.LocalResolutionFacts` | src/api_cmds.go:316-331 | a def is found iff one has the path; it is the first such def with only its file changed to `Join(RootDir, File)`; DocHTML is the data of the last doc with the path, or empty if none has it |
| `Describe.DescribeRef` | src/api_cmds.go:257-375 | search, repo defaulting, local lookup and fetch decision together give what DescribeSpec specifies |
| `Describe.DescribeNoRef` | src/api_cmds.go:285-291 | the answer is exactly `{}` with no request and no error iff no unit's ref covers the offset and every graph loads |
| `Describe.DescribeFetchDecision` | src/api_cmds.go:337-375 | the remote def is requested iff no local def was found, and always for a def in another repository; examples (formatted, 4 per page) are requested iff not turned off; both use the same locator; a failed fetch leaves its field empty |
| `Describe.RemoteFailuresAreNotErrors` | src/api_cmds.go:344-375 | the outcomes of the remote calls change neither whether describe fails nor which requests it makes |
| `Describe.DescribedLocator` | src/api_cmds.go:274-342 | the requests are keyed by the matched ref's locator: an empty unit or type becomes that of the unit holding the ref, and an empty repo becomes the current repo URI; for a def in the current repo, local lookup opens the graph of that defaulted unit name and type, whose failure is describe's error and whose matching def is the answer, with the remote def requested iff none matches |
| `Describe.LocalGraphFailureIsError` | src/api_cmds.go:303-315 | local lookup happens only when DefRepo is the current repo URI; if the target unit's graph fails to open or decode, describe returns that error |
| `Describe.ApiDescribe` | src/api_cmds.go:236-243 | the describe command runs the build, the unit lookup and the describe logic in that order; each step's error is returned and stops the command |

## Left out

- Command registration and `log.Fatal` in `init`: CLI wiring.
- `OpenRepo`, `filepath.Dir`, `filepath.Rel`, `os.Chdir` and `buildstore.NewRepositoryStore`: process and file-system set-up. Their results are inputs: the `Repo` value, the repository-relative file, and the store.
- The bodies of `filepath.Clean`, `filepath.Join`, `buildstore.DataTypeSuffix`, `buildStore.CommitPath` and `plan.SourceUnitDataFilename`. They are opaque: `clean` and `join` are parameters, the suffix is a store field, and graph files are addressed by (unit name, unit type).
- The directory walk, `buildStore.Open`, JSON decoding and the deferred `Close` calls. The walk is a given sequence of paths, and the decoded artifacts are given values. Error values keep only the kind and the path or unit key, not Go's message text.
- The bodies of `ConfigCmd.Execute` and `MakeCmd.Execute`. Each is an input that either fails with an error or succeeds. The store queried afterwards is the store as make left it; how make changes it is not modelled.
- The goroutines and `sync.WaitGroup` around the two remote calls. The model records which requests are issued, in the order they are started, and takes each call's result as an optional input. Concurrency and a call that never returns are not modelled.
- JSON encoding to standard output (and its error), and verbose logging.
- `Describe.FindRef`: the in-place update of `ref.DefUnit` and `ref.DefUnitType` through the `*graph.Ref` pointer is modelled as updating a local value. The decoded graph is never read again, so the aliasing cannot be observed.
- `Describe.DescribeRef`: the in-place update of `ref.DefRepo` through the same pointer is likewise modelled as updating a local value.
- `Describe.DescribeRef`: a remote def call that fails is taken to return no def. The model does not capture a client that returns a def together with an error.
