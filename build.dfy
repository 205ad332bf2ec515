/**
 * ensureBuild: configure the repository when the commit has no artifacts
 * yet, then always run make. The two steps are external; each is an input
 * that says whether it fails and with which error.
 */
module Build {
  import opened Wrappers
  import opened Store

  /** What Stat reported for the commit directory of the build store. */
  datatype StatResult = Present | NotExist | StatFailed(msg: string)

  /** The options both steps get: repository URI, subdirectory "." and the "program" execution method. */
  datatype BuildOptions = BuildOptions(repo: string, subdir: string, exeMethods: string)

  /** A build step that was started. */
  datatype Step = Configure(opts: BuildOptions) | Make(opts: BuildOptions)

  function OptionsFor(repo: Repo): BuildOptions
  {
    BuildOptions(repo.uri, ".", "program")
  }

  /** The steps ensureBuild starts, in order. */
  function BuildSteps(repo: Repo, stat: StatResult, configure: Option<Error>): seq<Step>
  {
    if stat.NotExist? then
      if configure.Some? then [Configure(OptionsFor(repo))]
      else [Configure(OptionsFor(repo)), Make(OptionsFor(repo))]
    else [Make(OptionsFor(repo))]
  }

  /** The error ensureBuild returns, if any. */
  function BuildError(stat: StatResult, configure: Option<Error>, make: Option<Error>): Option<Error>
  {
    if stat.NotExist? && configure.Some? then configure else make
  }

  /**
   * ensureBuild with Stat's outcome and the outcomes of the configure and
   * make steps as inputs; `steps` is the trace of steps started.
   */
  method EnsureBuild(repo: Repo, stat: StatResult, configure: Option<Error>, make: Option<Error>)
    returns (steps: seq<Step>, err: Option<Error>)
    ensures steps == BuildSteps(repo, stat, configure)
    ensures err == BuildError(stat, configure, make)
  {
    steps := [];
    var opts := OptionsFor(repo);

    // Configure the repository if it is not yet built.
    if stat.NotExist? {
      steps := steps + [Configure(opts)];
      if configure.Some? {
        return steps, configure;
      }
    }

    // Always re-make.
    steps := steps + [Make(opts)];
    if make.Some? {
      return steps, make;
    }
    return steps, None;
  }

  /**
   * The build decision: configure runs iff Stat says the commit directory
   * does not exist (any other Stat outcome skips it); make runs unless
   * configure ran and failed, and after configure; both steps get the same
   * options; a configure error is returned as is, otherwise make's error is.
   */
  lemma BuildDecision(repo: Repo, stat: StatResult, configure: Option<Error>, make: Option<Error>)
    ensures var steps := BuildSteps(repo, stat, configure);
            && (Configure(OptionsFor(repo)) in steps <==> stat.NotExist?)
            && (Make(OptionsFor(repo)) in steps <==> !(stat.NotExist? && configure.Some?))
            && (forall i :: 0 <= i < |steps| ==> steps[i].opts == BuildOptions(repo.uri, ".", "program"))
            && (forall i :: 0 <= i < |steps| && steps[i].Make? ==> i == |steps| - 1)
    ensures var err := BuildError(stat, configure, make);
            && (stat.NotExist? && configure.Some? ==> err == configure)
            && (!(stat.NotExist? && configure.Some?) ==> err == make)
            && (err.None? <==> (stat.NotExist? ==> configure.None?) && make.None?)
  {
  }
}
