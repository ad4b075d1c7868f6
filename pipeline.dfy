/**
 * The per-package loop of the fetcher's entry point: for every platform of the
 * table, in order, fetch and validate the archive, and deploy it when it is new.
 * The first exception ends the run.
 */
module Pipeline {
  import opened Wrappers
  import opened Release
  import opened Environment
  import opened Artifacts

  /**
   * What stays fixed for a whole run: the release, the package table, the
   * digest, the network and the deploy collaborators.
   */
  datatype Inputs = Inputs(release: ReleaseInfo, table: seq<PackageInfo>, md5: Digest, net: Network, env: DeployEnv)

  /**
   * One package whose `downloadAndValidate` returned normally: its archive name,
   * what `isNewDownload` then said, and how `deploy` returned if it was called.
   */
  datatype Step = Step(zipFileName: string, isNew: bool, deploy: Option<Outcome<Exception>>)

  /** How a run ends, what it leaves on disk and in the repository, and its steps in order. */
  datatype Run = Run(outcome: Outcome<Exception>, files: Files, deployments: seq<Deployment>, steps: seq<Step>)

  function Fetched(inputs: Inputs, files: Files, i: nat): Fetch
    requires i < |inputs.table|
  {
    var pkg := inputs.table[i];
    DownloadSpec(files, LocalPath(inputs.release, pkg), inputs.md5, inputs.net,
                 DownloadUrl(inputs.release, pkg), ChecksumUrl(inputs.release, pkg))
  }

  function Deployed(inputs: Inputs, files: Files, i: nat): DeployRun
    requires i < |inputs.table|
  {
    var pkg := inputs.table[i];
    DeploySpec(files, LocalPath(inputs.release, pkg), inputs.release.versionName, pkg.artifactId, inputs.env)
  }

  /** What handling one package produces: how it ends, the files after it, Maven requests and steps. */
  datatype Visit = Visit(outcome: Outcome<Exception>, files: Files, requests: seq<Deployment>, steps: seq<Step>)

  /**
   * The body of the loop for package `i`: fetch, then deploy if the fetch was
   * a new download. A visit records one step, for its own archive, exactly
   * when `downloadAndValidate` returned normally; the step's `isNew` is
   * whether that call completed a download, and `deploy` ran exactly then.
   * The files are those the fetch leaves, and Maven is asked nothing unless
   * the fetch was a new download.
   */
  function VisitPackage(inputs: Inputs, files: Files, i: nat): (v: Visit)
    requires i < |inputs.table|
    ensures |v.steps| <= 1 && (|v.steps| == 1 <==> Fetched(inputs, files, i).outcome == Normal)
    ensures |v.steps| == 1 ==>
      v.steps[0].zipFileName == ZipFileName(inputs.release, inputs.table[i]) &&
      v.steps[0].isNew == Fetched(inputs, files, i).downloaded &&
      (v.steps[0].deploy.Some? <==> v.steps[0].isNew)
    ensures v.outcome == Normal ==> |v.steps| == 1
    ensures v.files == Fetched(inputs, files, i).files
    ensures !Fetched(inputs, files, i).downloaded ==> v.requests == []
  {
    var zip := ZipFileName(inputs.release, inputs.table[i]);
    var f := Fetched(inputs, files, i);
    if f.outcome.Thrown? then Visit(f.outcome, f.files, [], [])
    else if !f.downloaded then Visit(Normal, f.files, [], [Step(zip, false, None)])
    else
      var d := Deployed(inputs, f.files, i);
      Visit(d.outcome, f.files, OptionSeq(d.request), [Step(zip, true, Some(d.outcome))])
  }

  /**
   * The loop from package `i` on, starting from `files` and `deployments`, with
   * the steps taken so far in `steps`.
   */
  function RunFrom(inputs: Inputs, i: nat, files: Files, deployments: seq<Deployment>, steps: seq<Step>): (run: Run)
    decreases |inputs.table| - i
    ensures steps <= run.steps && deployments <= run.deployments
    ensures i <= |inputs.table| ==> |run.steps| <= |steps| + |inputs.table| - i
    ensures i <= |inputs.table| && run.outcome == Normal ==> |run.steps| == |steps| + |inputs.table| - i
  {
    if i >= |inputs.table| then Run(Normal, files, deployments, steps)
    else
      var v := VisitPackage(inputs, files, i);
      if v.outcome.Thrown? then Run(v.outcome, v.files, deployments + v.requests, steps + v.steps)
      else RunFrom(inputs, i + 1, v.files, deployments + v.requests, steps + v.steps)
  }

  /**
   * A whole run over the table: it only appends to the deployments, takes at
   * most one step per package, and one for every package when it returns
   * normally.
   */
  function RunAll(inputs: Inputs, files: Files, deployments: seq<Deployment>): (run: Run)
    ensures deployments <= run.deployments && |run.steps| <= |inputs.table|
    ensures run.outcome == Normal ==> |run.steps| == |inputs.table|
  {
    RunFrom(inputs, 0, files, deployments, [])
  }

  /**
   * The steps keep the table's order: the `k`-th new step is for the `k`-th
   * remaining package; and `deploy` was called for it exactly when it
   * reported a new download.
   */
  lemma {:induction false} RunStepAt(inputs: Inputs, i: nat, files: Files,
                                     deployments: seq<Deployment>, steps: seq<Step>, k: nat)
    requires i <= |inputs.table|
    requires |steps| <= k < |RunFrom(inputs, i, files, deployments, steps).steps|
    ensures i + k - |steps| < |inputs.table|
    ensures var step := RunFrom(inputs, i, files, deployments, steps).steps[k];
      step.zipFileName == ZipFileName(inputs.release, inputs.table[i + k - |steps|]) &&
      (step.deploy.Some? <==> step.isNew)
    decreases |inputs.table| - i
  {
    var v := VisitPackage(inputs, files, i);
    RunUnfold(inputs, i, files, deployments, steps);
    if k > |steps| {
      RunStepAt(inputs, i + 1, v.files, deployments + v.requests, steps + v.steps, k);
    }
  }

  /**
   * One unfolding of the loop: a run that still has steps to take past
   * `steps` took its next one for package `i`, and one that took more than
   * that went on to package `i + 1` after a normal visit.
   */
  lemma RunUnfold(inputs: Inputs, i: nat, files: Files, deployments: seq<Deployment>, steps: seq<Step>)
    requires i <= |inputs.table|
    requires |steps| < |RunFrom(inputs, i, files, deployments, steps).steps|
    ensures i < |inputs.table|
    ensures var v := VisitPackage(inputs, files, i);
      var run := RunFrom(inputs, i, files, deployments, steps);
      |v.steps| == 1 && run.steps[|steps|] == v.steps[0] &&
      (|run.steps| > |steps| + 1 ==>
        v.outcome.Normal? && run == RunFrom(inputs, i + 1, v.files, deployments + v.requests, steps + v.steps))
  {
    var run := RunFrom(inputs, i, files, deployments, steps);
    var v := VisitPackage(inputs, files, i);
    var steps' := steps + v.steps;
    assert run.steps[..|steps'|] == steps';
    assert steps'[|steps|] == v.steps[0];
  }

  /** One visit writes to no file but its package's own. */
  lemma VisitKeepsOtherFiles(inputs: Inputs, files: Files, i: nat, p: string)
    requires i < |inputs.table| && p != LocalPath(inputs.release, inputs.table[i])
    ensures var v := VisitPackage(inputs, files, i);
      (p in v.files <==> p in files) && (p in files ==> v.files[p] == files[p])
  {
    var pkg := inputs.table[i];
    OnlyTargetChanges(files, LocalPath(inputs.release, pkg), inputs.md5, inputs.net,
                      DownloadUrl(inputs.release, pkg), ChecksumUrl(inputs.release, pkg));
  }

  /** A path that no package from `i` on downloads to is left as it was. */
  lemma {:induction false} RunKeepsOtherFiles(inputs: Inputs, i: nat, files: Files,
                                              deployments: seq<Deployment>, steps: seq<Step>, p: string)
    requires forall k :: i <= k < |inputs.table| ==> p != LocalPath(inputs.release, inputs.table[k])
    ensures var run := RunFrom(inputs, i, files, deployments, steps);
      (p in run.files <==> p in files) && (p in files ==> run.files[p] == files[p])
    decreases |inputs.table| - i
  {
    if i < |inputs.table| {
      var v := VisitPackage(inputs, files, i);
      VisitKeepsOtherFiles(inputs, files, i, p);
      if v.outcome.Normal? {
        RunKeepsOtherFiles(inputs, i + 1, v.files, deployments + v.requests, steps + v.steps, p);
      }
    }
  }

  /** Package `k`'s archive stands on disk with the digest its checksum file names. */
  predicate PackageValid(inputs: Inputs, files: Files, k: nat)
    requires k < |inputs.table|
  {
    var checksumUrl := ChecksumUrl(inputs.release, inputs.table[k]);
    checksumUrl in inputs.net.texts && ExpectedHash(inputs.net.texts[checksumUrl]).Ok? &&
    IsValid(files, LocalPath(inputs.release, inputs.table[k]), inputs.md5,
            ExpectedHash(inputs.net.texts[checksumUrl]).value)
  }

  /**
   * After a run that returns normally, every package's archive from `i` on is
   * on disk with its expected digest: later downloads never overwrite earlier
   * ones, because the packages' local paths are pairwise distinct.
   */
  lemma {:induction false} NormalRunLeavesValidFiles(inputs: Inputs, i: nat, files: Files,
                                                     deployments: seq<Deployment>, steps: seq<Step>)
    requires i <= |inputs.table| && DistinctZipNames(inputs.table)
    ensures var run := RunFrom(inputs, i, files, deployments, steps);
      run.outcome == Normal ==> forall k :: i <= k < |inputs.table| ==> PackageValid(inputs, run.files, k)
    decreases |inputs.table| - i
  {
    if i < |inputs.table| {
      var v := VisitPackage(inputs, files, i);
      var path := LocalPath(inputs.release, inputs.table[i]);
      VisitLeavesValidFile(inputs, files, i);
      if v.outcome.Normal? {
        var deployments', steps' := deployments + v.requests, steps + v.steps;
        forall k | i + 1 <= k < |inputs.table| ensures path != LocalPath(inputs.release, inputs.table[k]) {
          TargetsDistinct(inputs.release, inputs.table, i, k);
        }
        RunKeepsOtherFiles(inputs, i + 1, v.files, deployments', steps', path);
        NormalRunLeavesValidFiles(inputs, i + 1, v.files, deployments', steps');
      }
    }
  }

  /** A visit that ends normally leaves its package's archive valid on disk. */
  lemma VisitLeavesValidFile(inputs: Inputs, files: Files, i: nat)
    requires i < |inputs.table|
    ensures VisitPackage(inputs, files, i).outcome == Normal ==>
      PackageValid(inputs, VisitPackage(inputs, files, i).files, i)
  {
  }

  /**
   * For the program's own table: a run that returns normally took one step per
   * row, in table order, and left every row's archive on disk with the digest
   * its checksum file names.
   */
  lemma NormalRunOverTable(release: ReleaseInfo, md5: Digest, net: Network, env: DeployEnv,
                           files: Files, deployments: seq<Deployment>)
    ensures var inputs := Inputs(release, Packages, md5, net, env);
      var run := RunAll(inputs, files, deployments);
      run.outcome == Normal ==>
        |run.steps| == |Packages| &&
        forall k :: 0 <= k < |Packages| ==>
          run.steps[k].zipFileName == ZipFileName(release, Packages[k]) &&
          PackageValid(inputs, run.files, k)
  {
    var inputs := Inputs(release, Packages, md5, net, env);
    var run := RunAll(inputs, files, deployments);
    PackagesDistinct();
    assert run == RunFrom(inputs, 0, files, deployments, []);
    NormalRunLeavesValidFiles(inputs, 0, files, deployments, []);
    if run.outcome == Normal {
      forall k | 0 <= k < |Packages| ensures run.steps[k].zipFileName == ZipFileName(release, Packages[k]) {
        RunStepAt(inputs, 0, files, deployments, [], k);
      }
    }
  }

  /**
   * One pass of the loop body for package `i`: a new `Artifact` for the
   * package's archive under `downloads`, its fetch, and its deployment when
   * `isNewDownload` says so.
   */
  method HandlePackage(host: Host, inputs: Inputs, i: nat) returns (outcome: Outcome<Exception>, ghost step: seq<Step>)
    requires i < |inputs.table|
    requires FreshNames(inputs.env.tempNames, host.temps)
    modifies host
    ensures var v := VisitPackage(inputs, old(host.files), i);
      outcome == v.outcome && host.files == v.files &&
      host.deployments == old(host.deployments) + v.requests && step == v.steps
    ensures host.temps == old(host.temps) && host.handles == old(host.handles)
  {
    var r := inputs.release;
    var pkg := inputs.table[i];
    var zipFileName := r.releasePrefix + "-" + pkg.zipName;
    var downloadUrl := r.mirrorUrl + zipFileName;
    var checksumUrl := r.mirrorUrl + "checksum/" + zipFileName + ".md5";
    var artifact := new Artifact(host, DownloadDir + "/" + zipFileName, r.versionName, pkg.artifactId);
    outcome := artifact.DownloadAndValidate(inputs.md5, inputs.net, downloadUrl, checksumUrl);
    if outcome.Thrown? {
      return outcome, [];
    }
    var isNew := artifact.IsNewDownload();
    if isNew {
      outcome := artifact.Deploy(inputs.env);
      step := [Step(zipFileName, true, Some(outcome))];
    } else {
      step := [Step(zipFileName, false, None)];
    }
  }

  /**
   * The loop over the package table, in table order; the first exception ends
   * it. `steps` is the run's history, for the proofs.
   */
  method FetchPackages(host: Host, inputs: Inputs) returns (outcome: Outcome<Exception>, ghost steps: seq<Step>)
    requires FreshNames(inputs.env.tempNames, host.temps)
    modifies host
    ensures var run := RunAll(inputs, old(host.files), old(host.deployments));
      outcome == run.outcome && host.files == run.files && host.deployments == run.deployments &&
      steps == run.steps
    ensures host.temps == old(host.temps) && host.handles == old(host.handles)
  {
    steps := [];
    var i := 0;
    while i < |inputs.table|
      invariant i <= |inputs.table|
      invariant host.temps == old(host.temps) && host.handles == old(host.handles)
      invariant RunAll(inputs, old(host.files), old(host.deployments)) ==
        RunFrom(inputs, i, host.files, host.deployments, steps)
    {
      ghost var step;
      outcome, step := HandlePackage(host, inputs, i);
      steps := steps + step;
      if outcome.Thrown? {
        return;
      }
      i := i + 1;
    }
    outcome := Normal;
  }

  /**
   * From the final download link to the end of the run: derive the release,
   * then run the package loop. A link the derivation rejects ends the program
   * before anything is fetched.
   */
  method FetchRelease(host: Host, link: string, md5: Digest, net: Network, env: DeployEnv)
    returns (outcome: Outcome<Exception>)
    requires FreshNames(env.tempNames, host.temps)
    modifies host
    ensures DeriveRelease(link).Err? ==>
      outcome == Thrown(DeriveRelease(link).error) && host.files == old(host.files) &&
      host.deployments == old(host.deployments)
    ensures DeriveRelease(link).Ok? ==>
      var run := RunAll(Inputs(DeriveRelease(link).value, Packages, md5, net, env), old(host.files), old(host.deployments));
      outcome == run.outcome && host.files == run.files && host.deployments == run.deployments
    ensures host.temps == old(host.temps) && host.handles == old(host.handles)
  {
    var derived := DeriveRelease(link);
    if derived.Err? {
      return Thrown(derived.error);
    }
    ghost var steps;
    outcome, steps := FetchPackages(host, Inputs(derived.value, Packages, md5, net, env));
  }
}
