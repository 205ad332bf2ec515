/**
 * The describe command (APIDescribeCmd.Execute): find the first ref that
 * covers a byte offset of a file, fill in its omitted target fields, resolve
 * its def from the local graph when the def is in this repository, and decide
 * which requests go to the remote definition service.
 */
module Describe {
  import opened Wrappers
  import opened Seqs
  import opened Store
  import opened Units
  import opened Build

  /** Byte offset `pos` of `file` lies in the ref's span; both ends are inclusive. */
  predicate Covers(r: Ref, file: string, pos: int)
  {
    r.file == file && r.start <= pos && pos <= r.end
  }

  function CoversPos(file: string, pos: int): Ref -> bool
  {
    (r: Ref) => Covers(r, file, pos)
  }

  /** An empty target unit name or type means the unit the ref was found in. */
  function WithUnitDefaults(r: Ref, u: SourceUnit): Ref
  {
    r.(defUnit := if r.defUnit == "" then u.name else r.defUnit,
       defUnitType := if r.defUnitType == "" then u.unitType else r.defUnitType)
  }

  /** An empty target repository means the current repository. */
  function WithRepoDefault(r: Ref, uri: string): Ref
  {
    r.(defRepo := if r.defRepo == "" then uri else r.defRepo)
  }

  /**
   * Specification of the search: units in order, each unit's refs in graph
   * order, the first covering ref wins, with its unit defaults filled in. A
   * graph that fails to load before a match is found is an error.
   */
  function Search(store: BuildStore, units: seq<SourceUnit>, file: string, pos: int): Result<Option<Ref>, Error>
  {
    if units == [] then Ok(None)
    else match OpenGraph(store, units[0].Key())
      case Err(e) => Err(e)
      case Ok(g) =>
        match FirstIndex(g.refs, CoversPos(file, pos))
        case Some(k) => Ok(Some(WithUnitDefaults(g.refs[k], units[0])))
        case None => Search(store, units[1..], file, pos)
  }

  /** Unit `u`'s graph loads and none of its refs covers the position. */
  predicate Misses(store: BuildStore, u: SourceUnit, file: string, pos: int)
  {
    OpenGraph(store, u.Key()).Ok?
    && forall k :: 0 <= k < |OpenGraph(store, u.Key()).value.refs| ==> !Covers(OpenGraph(store, u.Key()).value.refs[k], file, pos)
  }

  /** The labelled OuterLoop of the describe command, proved against Search. */
  method FindRef(store: BuildStore, units: seq<SourceUnit>, file: string, startByte: int)
    returns (r: Result<Option<Ref>, Error>)
    ensures r == Search(store, units, file, startByte)
  {
    var found: Option<Ref> := None;
    var i := 0;
    label OuterLoop:
    while i < |units|
      invariant 0 <= i <= |units|
      invariant found == None
      invariant Search(store, units, file, startByte) == Search(store, units[i..], file, startByte)
    {
      var u := units[i];
      assert units[i..][0] == u && units[i..][1..] == units[i + 1..];
      var loaded := OpenGraph(store, u.Key());
      if loaded.Err? {
        return Err(loaded.error);
      }
      var g := loaded.value;
      var k := 0;
      while k < |g.refs|
        invariant 0 <= k <= |g.refs|
        invariant forall m :: 0 <= m < k ==> !CoversPos(file, startByte)(g.refs[m])
      {
        var ref2 := g.refs[k];
        if file == ref2.file && startByte >= ref2.start && startByte <= ref2.end {
          var ref := ref2;
          if ref.defUnit == "" {
            ref := ref.(defUnit := u.name);
          }
          if ref.defUnitType == "" {
            ref := ref.(defUnitType := u.unitType);
          }
          found := Some(ref);
          assert FirstIndex(g.refs, CoversPos(file, startByte)) == Some(k);
          assert Search(store, units, file, startByte) == Ok(found);
          break OuterLoop;
        }
        k := k + 1;
      }
      assert FirstIndex(g.refs, CoversPos(file, startByte)).None?;
      i := i + 1;
    }
    return Ok(found);
  }

  /**
   * No match: the search finds nothing, without error, iff every unit's
   * graph loads and no ref in any of them covers the position.
   */
  lemma {:induction false} SearchNoMatch(store: BuildStore, units: seq<SourceUnit>, file: string, pos: int)
    ensures Search(store, units, file, pos) == Ok(None)
        <==> forall i :: 0 <= i < |units| ==> Misses(store, units[i], file, pos)
  {
    if units != [] {
      SearchNoMatch(store, units[1..], file, pos);
      assert forall i :: 1 <= i < |units| ==> units[1..][i - 1] == units[i];
      var l := OpenGraph(store, units[0].Key());
      if l.Ok? {
        var o := FirstIndex(l.value.refs, CoversPos(file, pos));
        if o.Some? {
          assert !Misses(store, units[0], file, pos);
        }
      }
    }
  }

  /**
   * First match wins: when every unit before `i` misses and ref `k` is the
   * first covering ref of unit `i`'s graph, the search yields that ref with
   * unit `i`'s defaults, whatever comes after it.
   */
  lemma {:induction false} SearchPicksFirstMatch(store: BuildStore, units: seq<SourceUnit>, file: string, pos: int, i: nat, k: nat)
    requires i < |units| && forall j :: 0 <= j < i ==> Misses(store, units[j], file, pos)
    requires OpenGraph(store, units[i].Key()).Ok?
    requires var refs := OpenGraph(store, units[i].Key()).value.refs;
             k < |refs| && Covers(refs[k], file, pos) && forall m :: 0 <= m < k ==> !Covers(refs[m], file, pos)
    ensures Search(store, units, file, pos)
            == Ok(Some(WithUnitDefaults(OpenGraph(store, units[i].Key()).value.refs[k], units[i])))
  {
    var g := OpenGraph(store, units[0].Key()).value;
    if i == 0 {
      assert FirstIndex(g.refs, CoversPos(file, pos)) == Some(k);
    } else {
      assert Misses(store, units[0], file, pos);
      assert FirstIndex(g.refs, CoversPos(file, pos)).None?;
      assert forall j :: 0 <= j < i - 1 ==> units[1..][j] == units[j + 1];
      SearchPicksFirstMatch(store, units[1..], file, pos, i - 1, k);
    }
  }

  /**
   * A graph that fails to load before any match aborts the search with its
   * error; graphs after the match are never opened.
   */
  lemma {:induction false} SearchStopsAtFailure(store: BuildStore, units: seq<SourceUnit>, file: string, pos: int, i: nat)
    requires i < |units| && forall j :: 0 <= j < i ==> Misses(store, units[j], file, pos)
    requires OpenGraph(store, units[i].Key()).Err?
    ensures Search(store, units, file, pos) == Err(OpenGraph(store, units[i].Key()).error)
  {
    if i > 0 {
      var g := OpenGraph(store, units[0].Key()).value;
      assert Misses(store, units[0], file, pos);
      assert FirstIndex(g.refs, CoversPos(file, pos)).None?;
      assert forall j :: 0 <= j < i - 1 ==> units[1..][j] == units[j + 1];
      SearchStopsAtFailure(store, units[1..], file, pos, i - 1);
    }
  }

  /** A def together with the documentation attached to it. */
  datatype DescribedDef = DescribedDef(def: Def, docHTML: string)

  function DefHasPath(path: string): Def -> bool
  {
    (d: Def) => d.path == path
  }

  function DocHasPath(path: string): Doc -> bool
  {
    (d: Doc) => d.path == path
  }

  /** The data of the last doc with `path`, or "" when there is none. */
  function DocFor(docs: seq<Doc>, path: string): string
  {
    match LastIndex(docs, DocHasPath(path))
    case None => ""
    case Some(k) => docs[k].data
  }

  /**
   * Specification of local resolution in the target unit's graph: the first
   * def with the path, its documentation, and its file made absolute.
   */
  function LocalResolution(g: Graph, defPath: string, rootDir: string, join: (string, string) -> string): Option<DescribedDef>
  {
    match FirstIndex(g.defs, DefHasPath(defPath))
    case None => None
    case Some(k) => Some(DescribedDef(g.defs[k].(file := join(rootDir, g.defs[k].file)), DocFor(g.docs, defPath)))
  }

  /** The def loop (with break) and the doc loop (without) of the describe command. */
  method ResolveLocal(g: Graph, defPath: string, rootDir: string, join: (string, string) -> string)
    returns (d: Option<DescribedDef>)
    ensures d == LocalResolution(g, defPath, rootDir, join)
  {
    d := None;
    var k := 0;
    while k < |g.defs|
      invariant 0 <= k <= |g.defs|
      invariant d == None
      invariant forall m :: 0 <= m < k ==> !DefHasPath(defPath)(g.defs[m])
    {
      if g.defs[k].path == defPath {
        d := Some(DescribedDef(g.defs[k], ""));
        assert FirstIndex(g.defs, DefHasPath(defPath)) == Some(k);
        break;
      }
      k := k + 1;
    }
    if d.Some? {
      var j := 0;
      while j < |g.docs|
        invariant 0 <= j <= |g.docs|
        invariant d.Some? && d.value.def == g.defs[k]
        invariant d.value.docHTML == DocFor(g.docs[..j], defPath)
      {
        assert g.docs[..j + 1][..j] == g.docs[..j];
        if g.docs[j].path == defPath {
          d := Some(d.value.(docHTML := g.docs[j].data));
        }
        j := j + 1;
      }
      assert g.docs[..j] == g.docs;

      // The def is in the current repository: make its file absolute.
      d := Some(d.value.(def := d.value.def.(file := join(rootDir, d.value.def.file))));
    }
  }

  /**
   * Local resolution finds a def iff the graph has one with the path; it is
   * the first such def with only its file changed, to the root-joined path,
   * and its documentation is the data of the last doc with the path ("" if
   * no doc has it).
   */
  lemma LocalResolutionFacts(g: Graph, defPath: string, rootDir: string, join: (string, string) -> string)
    ensures var d := LocalResolution(g, defPath, rootDir, join);
            d.Some? <==> exists k :: 0 <= k < |g.defs| && g.defs[k].path == defPath
    ensures var d := LocalResolution(g, defPath, rootDir, join);
            d.Some? ==> exists k :: 0 <= k < |g.defs| && g.defs[k].path == defPath
                                    && (forall m :: 0 <= m < k ==> g.defs[m].path != defPath)
                                    && d.value.def == g.defs[k].(file := join(rootDir, g.defs[k].file))
    ensures var d := LocalResolution(g, defPath, rootDir, join);
            d.Some? ==> (d.value.docHTML == "" && forall j :: 0 <= j < |g.docs| ==> g.docs[j].path != defPath)
                        || exists j :: 0 <= j < |g.docs| && g.docs[j].path == defPath && d.value.docHTML == g.docs[j].data
                                       && forall m :: j < m < |g.docs| ==> g.docs[m].path != defPath
  {
  }

  /** The four-part locator sent to the remote definition service. */
  datatype DefSpec = DefSpec(repo: string, unitType: string, unit: string, path: string)

  /** A usage example as the remote service returns it. */
  datatype Example = Example(repo: string, file: string, srcHTML: string)

  /** A request to the remote service. */
  datatype Request =
    | GetDef(spec: DefSpec, includeDoc: bool)
    | ListExamples(spec: DefSpec, formatted: bool, perPage: int)

  /** What the two remote calls give back; None is a call that failed. */
  datatype Remote = Remote(def: Option<DescribedDef>, examples: Option<seq<Example>>)

  /** The command's arguments: a repository-relative file, a byte offset, and whether examples are wanted. */
  datatype DescribeCmd = DescribeCmd(file: string, startByte: int, noExamples: bool)

  /** What is printed: `{}` when no ref covers the offset, else the def and the examples. */
  datatype Response = NoRef | Described(def: Option<DescribedDef>, examples: seq<Example>)

  /** The printed response and the remote requests that were issued, in the order they were started. */
  datatype Answer = Answer(response: Response, requests: seq<Request>)

  const ExamplesPerPage := 4

  function SpecOf(r: Ref): DefSpec
  {
    DefSpec(r.defRepo, r.defUnitType, r.defUnit, r.defPath)
  }

  /** Local lookup of the matched ref's def: attempted only when it is in the current repository. */
  function LocalLookup(store: BuildStore, repo: Repo, r: Ref, join: (string, string) -> string): Result<Option<DescribedDef>, Error>
  {
    if r.defRepo != repo.uri then Ok(None)
    else match OpenGraph(store, UnitKey(r.defUnit, r.defUnitType))
      case Err(e) => Err(e)
      case Ok(g) => Ok(LocalResolution(g, r.defPath, repo.rootDir, join))
  }

  /** The remote requests: the def when no local def was found, the examples unless turned off. */
  function Requests(r: Ref, local: Option<DescribedDef>, noExamples: bool): seq<Request>
  {
    (if local.None? then [GetDef(SpecOf(r), true)] else [])
    + (if noExamples then [] else [ListExamples(SpecOf(r), true, ExamplesPerPage)])
  }

  /** The response: the local def if any, else the remote one; the examples if fetched and the fetch succeeded. */
  function Assemble(local: Option<DescribedDef>, remote: Remote, noExamples: bool): Response
  {
    Described(if local.Some? then local else remote.def,
              if noExamples || remote.examples.None? then [] else remote.examples.value)
  }

  /** Specification of describe over the units that contain the file. */
  function DescribeSpec(store: BuildStore, repo: Repo, units: seq<SourceUnit>, cmd: DescribeCmd,
                        remote: Remote, join: (string, string) -> string): Result<Answer, Error>
  {
    match Search(store, units, cmd.file, cmd.startByte)
    case Err(e) => Err(e)
    case Ok(None) => Ok(Answer(NoRef, []))
    case Ok(Some(found)) =>
      var r := WithRepoDefault(found, repo.uri);
      match LocalLookup(store, repo, r, join)
      case Err(e) => Err(e)
      case Ok(local) => Ok(Answer(Assemble(local, remote, cmd.noExamples), Requests(r, local, cmd.noExamples)))
  }

  /**
   * APIDescribeCmd.Execute after the units are found: search, defaulting,
   * local resolution and the remote fetch decision, proved against DescribeSpec.
   */
  method DescribeRef(store: BuildStore, repo: Repo, units: seq<SourceUnit>, cmd: DescribeCmd,
                     remote: Remote, join: (string, string) -> string)
    returns (r: Result<Answer, Error>)
    ensures r == DescribeSpec(store, repo, units, cmd, remote, join)
  {
    var found := FindRef(store, units, cmd.file, cmd.startByte);
    if found.Err? {
      return Err(found.error);
    }
    if found.value.None? {
      return Ok(Answer(NoRef, []));
    }
    var ref := found.value.value;
    if ref.defRepo == "" {
      ref := ref.(defRepo := repo.uri);
    }

    // Now find the def for this ref.
    var def: Option<DescribedDef> := None;
    if ref.defRepo == repo.uri {
      var loaded := OpenGraph(store, UnitKey(ref.defUnit, ref.defUnitType));
      if loaded.Err? {
        return Err(loaded.error);
      }
      def := ResolveLocal(loaded.value, ref.defPath, repo.rootDir, join);
    }
    ghost var local := def;

    var spec := DefSpec(ref.defRepo, ref.defUnitType, ref.defUnit, ref.defPath);
    var requests: seq<Request> := [];
    var examples: seq<Example> := [];
    if def.None? {
      requests := requests + [GetDef(spec, true)];
      def := remote.def;
    }
    if !cmd.noExamples {
      requests := requests + [ListExamples(spec, true, ExamplesPerPage)];
      if remote.examples.Some? {
        examples := remote.examples.value;
      }
    }
    assert requests == Requests(ref, local, cmd.noExamples);
    return Ok(Answer(Described(def, examples), requests));
  }

  /**
   * No covering ref: the answer is exactly `{}` with no remote request and no
   * error iff every unit's graph loads and none of their refs covers the
   * offset; no def lookup happens then.
   */
  lemma DescribeNoRef(store: BuildStore, repo: Repo, units: seq<SourceUnit>, cmd: DescribeCmd,
                      remote: Remote, join: (string, string) -> string)
    ensures DescribeSpec(store, repo, units, cmd, remote, join) == Ok(Answer(NoRef, []))
        <==> forall i :: 0 <= i < |units| ==> Misses(store, units[i], cmd.file, cmd.startByte)
  {
    SearchNoMatch(store, units, cmd.file, cmd.startByte);
  }

  /**
   * The fetch decision once a ref is matched and its local lookup is known:
   * the remote def is requested iff no local def was found, and always when
   * the def is in another repository; examples (formatted, 4 per page) are
   * requested iff they are not turned off; every request carries the ref's
   * locator; the def is the local one if found, else what the remote call
   * gave; examples are empty unless fetched successfully.
   */
  lemma DescribeFetchDecision(store: BuildStore, repo: Repo, units: seq<SourceUnit>, cmd: DescribeCmd,
                              remote: Remote, join: (string, string) -> string,
                              found: Ref, local: Option<DescribedDef>)
    requires Search(store, units, cmd.file, cmd.startByte) == Ok(Some(found))
    requires LocalLookup(store, repo, WithRepoDefault(found, repo.uri), join) == Ok(local)
    ensures var res := DescribeSpec(store, repo, units, cmd, remote, join);
            var r := WithRepoDefault(found, repo.uri);
            && res.Ok? && res.value.response.Described?
            && ((exists q :: q in res.value.requests && q.GetDef?) <==> local.None?)
            && (r.defRepo != repo.uri ==> GetDef(SpecOf(r), true) in res.value.requests)
            && ((exists q :: q in res.value.requests && q.ListExamples?) <==> !cmd.noExamples)
            && (forall q :: q in res.value.requests ==> q.spec == SpecOf(r))
            && (forall q :: q in res.value.requests && q.GetDef? ==> q.includeDoc)
            && (forall q :: q in res.value.requests && q.ListExamples? ==> q.formatted && q.perPage == 4)
            && res.value.response.def == (if local.Some? then local else remote.def)
            && res.value.response.examples
               == (if !cmd.noExamples && remote.examples.Some? then remote.examples.value else [])
  {
    var r := WithRepoDefault(found, repo.uri);
    var reqs := Requests(r, local, cmd.noExamples);
    assert DescribeSpec(store, repo, units, cmd, remote, join).value.requests == reqs;
    if local.None? {
      assert reqs[0] == GetDef(SpecOf(r), true);
    }
    if !cmd.noExamples {
      assert reqs[|reqs| - 1] == ListExamples(SpecOf(r), true, ExamplesPerPage);
    }
  }

  /**
   * The remote calls never turn into an error and never change what is
   * requested: for any two outcomes of the remote calls, describe fails in
   * the same way or issues the same requests.
   */
  lemma RemoteFailuresAreNotErrors(store: BuildStore, repo: Repo, units: seq<SourceUnit>, cmd: DescribeCmd,
                                   remote1: Remote, remote2: Remote, join: (string, string) -> string)
    ensures var a := DescribeSpec(store, repo, units, cmd, remote1, join);
            var b := DescribeSpec(store, repo, units, cmd, remote2, join);
            && a.Ok? == b.Ok?
            && (a.Err? ==> a.error == b.error)
            && (a.Ok? ==> a.value.requests == b.value.requests)
  {
  }

  /**
   * The target a matched ref resolves to: when unit `i` holds the first
   * covering ref, every request is keyed by that ref's locator with an empty
   * unit name or type taken from unit `i` and an empty repository taken from
   * the current repository.
   */
  lemma DescribedLocator(store: BuildStore, repo: Repo, units: seq<SourceUnit>, cmd: DescribeCmd,
                         remote: Remote, join: (string, string) -> string, i: nat, k: nat)
    requires i < |units| && forall j :: 0 <= j < i ==> Misses(store, units[j], cmd.file, cmd.startByte)
    requires OpenGraph(store, units[i].Key()).Ok?
    requires var refs := OpenGraph(store, units[i].Key()).value.refs;
             k < |refs| && Covers(refs[k], cmd.file, cmd.startByte)
             && forall m :: 0 <= m < k ==> !Covers(refs[m], cmd.file, cmd.startByte)
    ensures var ref := OpenGraph(store, units[i].Key()).value.refs[k];
            var res := DescribeSpec(store, repo, units, cmd, remote, join);
            res.Ok? ==>
              && res.value.response.Described?
              && forall q :: q in res.value.requests ==>
                   q.spec == DefSpec(if ref.defRepo == "" then repo.uri else ref.defRepo,
                                     if ref.defUnitType == "" then units[i].unitType else ref.defUnitType,
                                     if ref.defUnit == "" then units[i].name else ref.defUnit,
                                     ref.defPath)
    ensures var ref := OpenGraph(store, units[i].Key()).value.refs[k];
            var key := UnitKey(if ref.defUnit == "" then units[i].name else ref.defUnit,
                               if ref.defUnitType == "" then units[i].unitType else ref.defUnitType);
            var res := DescribeSpec(store, repo, units, cmd, remote, join);
            (ref.defRepo == "" || ref.defRepo == repo.uri) ==>
              if OpenGraph(store, key).Err? then res == Err(OpenGraph(store, key).error)
              else
                var local := LocalResolution(OpenGraph(store, key).value, ref.defPath, repo.rootDir, join);
                && res.Ok? && res.value.response.Described?
                && (local.Some? ==> res.value.response.def == local)
                && (local.None? <==> exists q :: q in res.value.requests && q.GetDef?)
  {
    SearchPicksFirstMatch(store, units, cmd.file, cmd.startByte, i, k);
  }

  /**
   * A def in the current repository whose unit graph cannot be opened or
   * decoded makes describe fail with that error; no remote request is made.
   */
  lemma LocalGraphFailureIsError(store: BuildStore, repo: Repo, units: seq<SourceUnit>, cmd: DescribeCmd,
                                 remote: Remote, join: (string, string) -> string, found: Ref)
    requires Search(store, units, cmd.file, cmd.startByte) == Ok(Some(found))
    requires var r := WithRepoDefault(found, repo.uri);
             r.defRepo == repo.uri && OpenGraph(store, UnitKey(r.defUnit, r.defUnitType)).Err?
    ensures var r := WithRepoDefault(found, repo.uri);
            DescribeSpec(store, repo, units, cmd, remote, join)
            == Err(OpenGraph(store, UnitKey(r.defUnit, r.defUnitType)).error)
  {
  }

  /** The whole describe command after the repository is opened: build, find the units, describe. */
  function DescribeCommand(store: BuildStore, repo: Repo, clean: string -> string, join: (string, string) -> string,
                           cmd: DescribeCmd, stat: StatResult, configure: Option<Error>, make: Option<Error>,
                           remote: Remote): Result<Answer, Error>
  {
    match BuildError(stat, configure, make)
    case Some(e) => Err(e)
    case None =>
      match UnitsWithFile(store, clean, cmd.file)
      case Err(e) => Err(e)
      case Ok(units) => DescribeSpec(store, repo, units, cmd, remote, join)
  }

  /**
   * APIDescribeCmd.Execute from ensureBuild on. `cmd.file` is the cleaned,
   * repository-relative path; `store` is the build store as make left it.
   */
  method ApiDescribe(store: BuildStore, repo: Repo, clean: string -> string, join: (string, string) -> string,
                     cmd: DescribeCmd, stat: StatResult, configure: Option<Error>, make: Option<Error>,
                     remote: Remote)
    returns (steps: seq<Step>, r: Result<Answer, Error>)
    ensures steps == BuildSteps(repo, stat, configure)
    ensures r == DescribeCommand(store, repo, clean, join, cmd, stat, configure, make, remote)
  {
    var err;
    steps, err := EnsureBuild(repo, stat, configure, make);
    if err.Some? {
      return steps, Err(err.value);
    }
    var units := GetSourceUnitsWithFile(store, clean, cmd.file);
    if units.Err? {
      return steps, Err(units.error);
    }
    r := DescribeRef(store, repo, units.value, cmd, remote, join);
  }
}
