/**
 * Source unit lookup (getSourceUnitsWithFile): walk the commit directory for
 * unit manifests, decode each, and keep the units that list the query file.
 */
module Units {
  import opened Wrappers
  import opened Seqs
  import opened Store

  /** The walked paths that name unit manifests, in walk order. */
  function ManifestPaths(store: BuildStore): seq<string>
  {
    Filter(store.walk, IsManifest(store.unitSuffix))
  }

  function IsManifest(suffix: string): string -> bool
  {
    p => HasSuffix(p, suffix)
  }

  /** Some member file of `u` is `name` once cleaned. */
  predicate Lists(u: SourceUnit, clean: string -> string, name: string)
  {
    exists f :: f in u.files && clean(f) == name
  }

  function ListsFile(clean: string -> string, name: string): SourceUnit -> bool
  {
    u => Lists(u, clean, name)
  }

  /**
   * Specification of the lookup: every manifest must load, and the result is
   * the decoded units, in manifest order, that list `clean(filename)`.
   */
  function UnitsWithFile(store: BuildStore, clean: string -> string, filename: string): Result<seq<SourceUnit>, Error>
  {
    match LoadAll(ManifestPaths(store), ManifestLoader(store))
    case Err(e) => Err(e)
    case Ok(us) => Ok(Filter(us, ListsFile(clean, clean(filename))))
  }

  /** getSourceUnitsWithFile: the two loops of the Go function, proved against UnitsWithFile. */
  method GetSourceUnitsWithFile(store: BuildStore, clean: string -> string, filename: string)
    returns (r: Result<seq<SourceUnit>, Error>)
    ensures r == UnitsWithFile(store, clean, filename)
  {
    var name := clean(filename);
    var unitFiles := FindManifests(store);

    // Find which source units the file belongs to.
    var units: seq<SourceUnit> := [];
    var j := 0;
    while j < |unitFiles|
      invariant 0 <= j <= |unitFiles|
      invariant LoadAll(unitFiles[..j], ManifestLoader(store)).Ok?
      invariant units == Filter(LoadAll(unitFiles[..j], ManifestLoader(store)).value, ListsFile(clean, name))
    {
      ghost var loaded := LoadAll(unitFiles[..j], ManifestLoader(store)).value;
      var unitFile := unitFiles[j];
      assert ManifestLoader(store)(unitFile) == OpenManifest(store, unitFile);
      match OpenManifest(store, unitFile)
      case Err(e) =>
        LoadAllFirstFailure(unitFiles, ManifestLoader(store), j);
        return Err(e);
      case Ok(u) =>
        LoadAllExtend(unitFiles, ManifestLoader(store), j);
        FilterExtend(loaded, u, ListsFile(clean, name));
        var listed := ListsCleaned(u, clean, name);
        if listed {
          units := units + [u];
        }
      j := j + 1;
    }
    assert unitFiles[..j] == unitFiles;
    return Ok(units);
  }

  /** The walk of the commit directory, keeping the paths with the manifest suffix. */
  method FindManifests(store: BuildStore) returns (unitFiles: seq<string>)
    ensures unitFiles == ManifestPaths(store)
  {
    unitFiles := [];
    var i := 0;
    while i < |store.walk|
      invariant 0 <= i <= |store.walk|
      invariant unitFiles == Filter(store.walk[..i], IsManifest(store.unitSuffix))
    {
      assert store.walk[..i + 1][..i] == store.walk[..i];
      if HasSuffix(store.walk[i], store.unitSuffix) {
        unitFiles := unitFiles + [store.walk[i]];
      }
      i := i + 1;
    }
    assert store.walk[..i] == store.walk;
  }

  /** The scan of one manifest's files, stopping at the first that cleans to `name`. */
  method ListsCleaned(u: SourceUnit, clean: string -> string, name: string) returns (listed: bool)
    ensures listed == Lists(u, clean, name)
  {
    listed := false;
    var k := 0;
    while k < |u.files|
      invariant 0 <= k <= |u.files|
      invariant forall m :: 0 <= m < k ==> clean(u.files[m]) != name
    {
      if clean(u.files[k]) == name {
        listed := true;
        break;
      }
      k := k + 1;
    }
  }

  /** A manifest in the walk that decodes to `u`. */
  predicate DecodedInWalk(store: BuildStore, u: SourceUnit)
  {
    exists p :: p in store.walk && HasSuffix(p, store.unitSuffix) && p in store.manifests && store.manifests[p] == Decoded(u)
  }

  /**
   * A unit is found iff a manifest in the walk decodes to it and one of its
   * files cleans to the cleaned query path.
   */
  lemma UnitsWithFileMembership(store: BuildStore, clean: string -> string, filename: string, u: SourceUnit)
    requires UnitsWithFile(store, clean, filename).Ok?
    ensures u in UnitsWithFile(store, clean, filename).value
        <==> Lists(u, clean, clean(filename)) && DecodedInWalk(store, u)
  {
    LoadAllSucceeds(ManifestPaths(store), ManifestLoader(store));
    if u in UnitsWithFile(store, clean, filename).value {
      FoundUnitIsListed(store, clean, filename, u);
    }
    if Lists(u, clean, clean(filename)) && DecodedInWalk(store, u) {
      ListedUnitIsFound(store, clean, filename, u);
    }
  }

  lemma FoundUnitIsListed(store: BuildStore, clean: string -> string, filename: string, u: SourceUnit)
    requires UnitsWithFile(store, clean, filename).Ok?
    requires u in UnitsWithFile(store, clean, filename).value
    ensures Lists(u, clean, clean(filename)) && DecodedInWalk(store, u)
  {
    var paths := ManifestPaths(store);
    LoadAllSucceeds(paths, ManifestLoader(store));
    var us := LoadAll(paths, ManifestLoader(store)).value;
    var k :| 0 <= k < |us| && us[k] == u;
    assert ManifestLoader(store)(paths[k]) == Ok(us[k]);
    assert paths[k] in store.walk && HasSuffix(paths[k], store.unitSuffix);
  }

  lemma ListedUnitIsFound(store: BuildStore, clean: string -> string, filename: string, u: SourceUnit)
    requires UnitsWithFile(store, clean, filename).Ok?
    requires Lists(u, clean, clean(filename)) && DecodedInWalk(store, u)
    ensures u in UnitsWithFile(store, clean, filename).value
  {
    var paths := ManifestPaths(store);
    LoadAllSucceeds(paths, ManifestLoader(store));
    var us := LoadAll(paths, ManifestLoader(store)).value;
    var p :| p in store.walk && HasSuffix(p, store.unitSuffix) && p in store.manifests && store.manifests[p] == Decoded(u);
    var w :| 0 <= w < |store.walk| && store.walk[w] == p;
    assert IsManifest(store.unitSuffix)(store.walk[w]);
    var k :| 0 <= k < |paths| && paths[k] == p;
    assert ManifestLoader(store)(paths[k]) == Ok(us[k]);
    assert ListsFile(clean, clean(filename))(us[k]);
  }

  /** Manifest order is kept: the units found are a subsequence of the decoded manifests. */
  lemma UnitsWithFileOrder(store: BuildStore, clean: string -> string, filename: string)
    requires UnitsWithFile(store, clean, filename).Ok?
    ensures IsSubsequence(UnitsWithFile(store, clean, filename).value,
                          LoadAll(ManifestPaths(store), ManifestLoader(store)).value)
  {
    var us := LoadAll(ManifestPaths(store), ManifestLoader(store)).value;
    FilterIsSubsequence(us, ListsFile(clean, clean(filename)));
  }

  /**
   * Each manifest contributes its unit at most once, however many of its
   * files match: a unit occurs in the result exactly as many times as
   * manifests decode to it when it lists the file, and never otherwise.
   */
  lemma UnitsWithFileCount(store: BuildStore, clean: string -> string, filename: string, u: SourceUnit)
    requires UnitsWithFile(store, clean, filename).Ok?
    ensures multiset(UnitsWithFile(store, clean, filename).value)[u]
            == if Lists(u, clean, clean(filename))
               then multiset(LoadAll(ManifestPaths(store), ManifestLoader(store)).value)[u]
               else 0
  {
    var us := LoadAll(ManifestPaths(store), ManifestLoader(store)).value;
    FilterCount(us, ListsFile(clean, clean(filename)), u);
  }

  /**
   * The lookup fails iff some manifest in the walk cannot be opened or
   * decoded, and then with the first such manifest's error; a file no unit
   * lists is an empty result, not an error.
   */
  lemma UnitsWithFileErrors(store: BuildStore, clean: string -> string, filename: string)
    ensures var r := UnitsWithFile(store, clean, filename);
            var paths := ManifestPaths(store);
            && (r.Err? <==> exists i :: 0 <= i < |paths| && OpenManifest(store, paths[i]).Err?)
            && (r.Err? ==> exists i :: 0 <= i < |paths| && OpenManifest(store, paths[i]) == Err(r.error)
                                       && forall j :: 0 <= j < i ==> OpenManifest(store, paths[j]).Ok?)
  {
    var paths := ManifestPaths(store);
    var l := LoadAll(paths, ManifestLoader(store));
    LoadAllSucceeds(paths, ManifestLoader(store));
    LoadAllFails(paths, ManifestLoader(store));
    assert forall i :: 0 <= i < |paths| ==> ManifestLoader(store)(paths[i]) == OpenManifest(store, paths[i]);
    if l.Err? {
      var i :| 0 <= i < |paths| && ManifestLoader(store)(paths[i]) == Err(l.error)
               && forall j :: 0 <= j < i ==> ManifestLoader(store)(paths[j]).Ok?;
      assert OpenManifest(store, paths[i]).Err?;
    }
  }
}
