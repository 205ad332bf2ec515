/**
 * The list command (APIListCmd.Execute): every ref in the query file, across
 * the units that contain the file, in unit order and then in graph order.
 */
module List {
  import opened Wrappers
  import opened Seqs
  import opened Store
  import opened Units
  import opened Build

  function InFile(file: string): Ref -> bool
  {
    (r: Ref) => r.file == file
  }

  /** The refs of each graph that lie in `file`, graph after graph. */
  function FileRefs(gs: seq<Graph>, file: string): seq<Ref>
  {
    if gs == [] then []
    else FileRefs(gs[..|gs| - 1], file) + Filter(gs[|gs| - 1].refs, InFile(file))
  }

  /** Specification of the ref listing over the units found for the file. */
  function RefsInFile(store: BuildStore, units: seq<SourceUnit>, file: string): Result<seq<Ref>, Error>
  {
    match LoadAll(units, GraphLoader(store))
    case Err(e) => Err(e)
    case Ok(gs) => Ok(FileRefs(gs, file))
  }

  /** The nested loop of the list command, proved against RefsInFile. */
  method ListRefs(store: BuildStore, units: seq<SourceUnit>, file: string) returns (r: Result<seq<Ref>, Error>)
    ensures r == RefsInFile(store, units, file)
  {
    var refs: seq<Ref> := [];
    var i := 0;
    while i < |units|
      invariant 0 <= i <= |units|
      invariant LoadAll(units[..i], GraphLoader(store)).Ok?
      invariant refs == FileRefs(LoadAll(units[..i], GraphLoader(store)).value, file)
    {
      ghost var gs := LoadAll(units[..i], GraphLoader(store)).value;
      var u := units[i];
      assert GraphLoader(store)(u) == OpenGraph(store, u.Key());
      match OpenGraph(store, u.Key())
      case Err(e) =>
        LoadAllFirstFailure(units, GraphLoader(store), i);
        return Err(e);
      case Ok(g) =>
        LoadAllExtend(units, GraphLoader(store), i);
        assert (gs + [g])[..|gs|] == gs;
        refs := AppendRefsInFile(refs, g, file);
      i := i + 1;
    }
    assert units[..i] == units;
    return Ok(refs);
  }

  /** The inner loop of the list command: append the graph's refs that lie in `file`, in graph order. */
  method AppendRefsInFile(refs: seq<Ref>, g: Graph, file: string) returns (out: seq<Ref>)
    ensures out == refs + Filter(g.refs, InFile(file))
  {
    out := refs;
    var k := 0;
    while k < |g.refs|
      invariant 0 <= k <= |g.refs|
      invariant out == refs + Filter(g.refs[..k], InFile(file))
    {
      var ref := g.refs[k];
      FilterExtend(g.refs[..k], ref, InFile(file));
      assert g.refs[..k + 1] == g.refs[..k] + [ref];
      if file == ref.file {
        out := out + [ref];
      }
      k := k + 1;
    }
    assert g.refs[..k] == g.refs;
  }

  /** A ref is in FileRefs iff it lies in `file` and is a ref of one of the graphs. */
  lemma {:induction false} FileRefsMembership(gs: seq<Graph>, file: string, x: Ref)
    ensures x in FileRefs(gs, file) <==> x.file == file && exists i :: 0 <= i < |gs| && x in gs[i].refs
  {
    if gs != [] {
      var init, last := gs[..|gs| - 1], gs[|gs| - 1];
      FileRefsMembership(init, file, x);
      if x in Filter(last.refs, InFile(file)) {
        var k :| 0 <= k < |Filter(last.refs, InFile(file))| && Filter(last.refs, InFile(file))[k] == x;
        assert x.file == file && x in gs[|gs| - 1].refs;
      }
      if x.file == file && exists i :: 0 <= i < |gs| && x in gs[i].refs {
        var i :| 0 <= i < |gs| && x in gs[i].refs;
        if i < |gs| - 1 {
          assert init[i] == gs[i];
        } else {
          var k :| 0 <= k < |last.refs| && last.refs[k] == x;
          assert InFile(file)(last.refs[k]);
        }
      }
    }
  }

  /**
   * The listing is exactly the refs whose file is the query file, with no
   * offset filtering: a ref is listed iff it lies in the file and belongs to
   * the graph of one of the units; all of them lie in the file.
   */
  lemma ListedRefsExact(store: BuildStore, units: seq<SourceUnit>, file: string, x: Ref)
    requires RefsInFile(store, units, file).Ok?
    ensures x in RefsInFile(store, units, file).value
        <==> x.file == file && exists i :: 0 <= i < |units| && OpenGraph(store, units[i].Key()).Ok?
                                          && x in OpenGraph(store, units[i].Key()).value.refs
  {
    var gs := LoadAll(units, GraphLoader(store)).value;
    LoadAllSucceeds(units, GraphLoader(store));
    FileRefsMembership(gs, file, x);
    assert forall i :: 0 <= i < |units| ==> OpenGraph(store, units[i].Key()) == GraphLoader(store)(units[i]);
  }

  /**
   * Unit order, then graph order: the refs found for a list of units are the
   * refs found for all but the last unit, followed by the last unit's refs in
   * the file in the order its graph holds them.
   */
  lemma ListedRefsOrder(store: BuildStore, units: seq<SourceUnit>, file: string)
    requires units != [] && RefsInFile(store, units, file).Ok?
    ensures var last := units[|units| - 1];
            OpenGraph(store, last.Key()).Ok?
            && RefsInFile(store, units[..|units| - 1], file).Ok?
            && RefsInFile(store, units, file).value
               == RefsInFile(store, units[..|units| - 1], file).value
                  + Filter(OpenGraph(store, last.Key()).value.refs, InFile(file))
  {
  }

  /**
   * A graph that cannot be opened or decoded aborts the listing: it fails iff
   * some unit's graph fails, and with the first such unit's error.
   */
  lemma ListErrors(store: BuildStore, units: seq<SourceUnit>, file: string)
    ensures var r := RefsInFile(store, units, file);
            && (r.Err? <==> exists i :: 0 <= i < |units| && OpenGraph(store, units[i].Key()).Err?)
            && (r.Err? ==> exists i :: 0 <= i < |units| && OpenGraph(store, units[i].Key()) == Err(r.error)
                                       && forall j :: 0 <= j < i ==> OpenGraph(store, units[j].Key()).Ok?)
  {
    var l := LoadAll(units, GraphLoader(store));
    LoadAllSucceeds(units, GraphLoader(store));
    LoadAllFails(units, GraphLoader(store));
    assert forall i :: 0 <= i < |units| ==> GraphLoader(store)(units[i]) == OpenGraph(store, units[i].Key());
    if l.Err? {
      var i :| 0 <= i < |units| && GraphLoader(store)(units[i]) == Err(l.error)
               && forall j :: 0 <= j < i ==> GraphLoader(store)(units[j]).Ok?;
      assert OpenGraph(store, units[i].Key()).Err?;
    }
  }

  /** The whole list command after the repository is opened: build, find the units, list the refs. */
  function ListSpec(store: BuildStore, clean: string -> string, file: string,
                    stat: StatResult, configure: Option<Error>, make: Option<Error>): Result<seq<Ref>, Error>
  {
    match BuildError(stat, configure, make)
    case Some(e) => Err(e)
    case None =>
      match UnitsWithFile(store, clean, file)
      case Err(e) => Err(e)
      case Ok(units) => RefsInFile(store, units, file)
  }

  /**
   * APIListCmd.Execute from ensureBuild on. `file` is the cleaned,
   * repository-relative query path; `store` is the build store as make left it.
   */
  method ApiList(store: BuildStore, repo: Repo, clean: string -> string, file: string,
                 stat: StatResult, configure: Option<Error>, make: Option<Error>)
    returns (steps: seq<Step>, r: Result<seq<Ref>, Error>)
    ensures steps == BuildSteps(repo, stat, configure)
    ensures r == ListSpec(store, clean, file, stat, configure, make)
  {
    var err;
    steps, err := EnsureBuild(repo, stat, configure, make);
    if err.Some? {
      return steps, Err(err.value);
    }
    var units := GetSourceUnitsWithFile(store, clean, file);
    if units.Err? {
      return steps, Err(units.error);
    }
    r := ListRefs(store, units.value, file);
  }
}
