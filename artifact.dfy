/**
 * One SWT archive: fetching it with checksum validation, and deploying its jar
 * and sources to the Maven repository with temp files that are always cleaned up.
 */
module Artifacts {
  import opened Wrappers
  import opened JavaSplit
  import opened Environment

  /** The hex MD5 digest of a byte sequence; the hash itself is not modelled. */
  type Digest = Bytes -> string

  const RepositoryUrl := "svn:https://swt-repo.googlecode.com/svn/repo"
  const RepositoryId := "googlecode"
  const JarEntry := "swt.jar"
  const SourcesEntry := "src.zip"
  const ValidationFailed := "MD5 Validation Failed! Expected hash: "
  const MavenFailed := "Maven deploy failed!"

  /** Stands for whatever `IOException` `File.createTempFile` raises. */
  const TempFileFailure := IOException("unable to create temp file")

  /**
   * The expected digest read from a checksum file: the text before its first
   * space, or all of it when there is none. A file of nothing but spaces splits
   * into no tokens at all, and taking token 0 then fails.
   */
  function ExpectedHash(content: string): (r: Result<string, Exception>)
    ensures r.Err? <==> content != "" && forall k :: 0 <= k < |content| ==> content[k] == ' '
    ensures r.Err? ==> r.error == IndexOutOfBounds(0, 0)
    ensures r.Ok? ==> |r.value| <= |content| && r.value == content[..|r.value|] && ' ' !in r.value
    ensures r.Ok? && |r.value| < |content| ==> content[|r.value|] == ' '
  {
    SplitFirstToken(content, ' ');
    var tokens := Split(content, Space);
    if |tokens| == 0 then Err(IndexOutOfBounds(0, 0)) else Ok(tokens[0])
  }

  /** Whether a file stands on disk with the expected digest, the skip test. */
  predicate IsValid(files: Files, path: string, md5: Digest, expected: string) {
    path in files && md5(files[path]) == expected
  }

  /** What a call of `downloadAndValidate` leaves behind. */
  datatype Fetch = Fetch(outcome: Outcome<Exception>, files: Files, downloaded: bool)

  /**
   * `downloadAndValidate` as a function of the files before the call: read the
   * checksum, take its first token, skip if the file on disk already has that
   * digest, otherwise truncate the file, copy the download into it and check the
   * digest again. `downloaded` is whether the call completed the download path.
   *
   * On a normal return, by skip or by download, the file stands on disk with
   * the expected digest. A call counts as a new download exactly when it
   * returns normally without having skipped, so never when it throws.
   */
  function DownloadSpec(files: Files, file: string, md5: Digest, net: Network,
                        downloadUrl: string, checksumUrl: string): (r: Fetch)
    ensures r.outcome == Normal ==>
      checksumUrl in net.texts && ExpectedHash(net.texts[checksumUrl]).Ok? &&
      IsValid(r.files, file, md5, ExpectedHash(net.texts[checksumUrl]).value)
    ensures r.downloaded <==>
      r.outcome == Normal && checksumUrl in net.texts && ExpectedHash(net.texts[checksumUrl]).Ok? &&
      !IsValid(files, file, md5, ExpectedHash(net.texts[checksumUrl]).value)
  {
    if checksumUrl !in net.texts then Fetch(Thrown(NetworkFailure(checksumUrl)), files, false)
    else match ExpectedHash(net.texts[checksumUrl])
      case Err(e) => Fetch(Thrown(e), files, false)
      case Ok(hash) =>
        if IsValid(files, file, md5, hash) then Fetch(Normal, files, false)
        else if downloadUrl !in net.bodies then
          Fetch(Thrown(NetworkFailure(downloadUrl)), files[file := []], false)
        else match net.bodies[downloadUrl]
          case Broken(part) => Fetch(Thrown(NetworkFailure(downloadUrl)), files[file := part], false)
          case Complete(bytes) =>
            if md5(bytes) != hash then
              Fetch(Thrown(IOException(ValidationFailed + hash)), files[file := bytes], false)
            else Fetch(Normal, files[file := bytes], true)
  }

  /** The collaborators `deploy` calls but whose insides are not modelled. */
  datatype DeployEnv = DeployEnv(
    /** The names `File.createTempFile` hands out, in order; after them it throws. */
    tempNames: seq<string>,
    /** Opening an archive: its entries by name, or the exception `ZipFile` raises. */
    unzip: Bytes -> Result<map<string, Bytes>, Exception>,
    /** Rendering `pom.vm` from the repository URL, the version and the artifact id. */
    renderPom: (string, string, string) -> Result<Bytes, Exception>,
    /** Whether Maven reports the deployment without exceptions. */
    mavenSucceeds: Deployment -> bool)

  /** Names that `createTempFile` could really hand out: new and pairwise distinct. */
  predicate FreshNames(names: seq<string>, temps: Files) {
    (forall i :: 0 <= i < |names| ==> names[i] !in temps) &&
    (forall i, j :: 0 <= i < j < |names| ==> names[i] != names[j])
  }

  /** What a call of `deploy` achieves: how it returns and what Maven was asked. */
  datatype DeployRun = DeployRun(outcome: Outcome<Exception>, request: Option<Deployment>)

  /**
   * `deploy` as a function of the archive on disk: three temp files, then
   * everything after them. Maven is asked to deploy exactly when the temp
   * files, the archive with both entries and the POM could all be had;
   * `deploy` returns normally exactly when Maven then succeeds.
   */
  function DeploySpec(files: Files, file: string, version: string, id: string, env: DeployEnv): (run: DeployRun)
    ensures run.request.Some? <==>
      |env.tempNames| >= 3 && file in files && env.unzip(files[file]).Ok? &&
      JarEntry in env.unzip(files[file]).value && SourcesEntry in env.unzip(files[file]).value &&
      env.renderPom(RepositoryUrl, version, id).Ok?
    ensures run.outcome == Normal <==> run.request.Some? && env.mavenSucceeds(run.request.value)
    ensures |env.tempNames| < 3 ==> run.outcome == Thrown(TempFileFailure)
  {
    if |env.tempNames| < 3 then DeployRun(Thrown(TempFileFailure), None)
    else DeployWithTemps(files, file, version, id, env)
  }

  /**
   * The part of `deploy` after the temp files exist: the archive opened, then
   * `swt.jar` and `src.zip` extracted (a missing entry is a
   * `NullPointerException` from `getInputStream(null)`), the POM rendered, and
   * Maven run on the three files. A missing archive is a `FileNotFoundException`.
   */
  function DeployWithTemps(files: Files, file: string, version: string, id: string, env: DeployEnv): (run: DeployRun)
    ensures run.request.Some? <==>
      file in files && env.unzip(files[file]).Ok? &&
      JarEntry in env.unzip(files[file]).value && SourcesEntry in env.unzip(files[file]).value &&
      env.renderPom(RepositoryUrl, version, id).Ok?
    ensures run.outcome == Normal <==> run.request.Some? && env.mavenSucceeds(run.request.value)
    ensures file !in files ==> run.outcome == Thrown(FileNotFound(file))
  {
    if file !in files then DeployRun(Thrown(FileNotFound(file)), None)
    else match env.unzip(files[file])
      case Err(e) => DeployRun(Thrown(e), None)
      case Ok(archive) => DeployArchive(archive, version, id, env)
  }

  /**
   * The part of `deploy` that works on the opened archive. Maven is asked to
   * deploy exactly when both entries are there and the POM renders, and it is
   * asked to deploy `swt.jar` as the jar and `src.zip` as the sources, with
   * the rendered POM, repository id `googlecode` and the repository URL.
   */
  function DeployArchive(archive: map<string, Bytes>, version: string, id: string, env: DeployEnv): (run: DeployRun)
    ensures run.request.Some? <==>
      JarEntry in archive && SourcesEntry in archive && env.renderPom(RepositoryUrl, version, id).Ok?
    ensures run.request.Some? ==>
      var d := run.request.value;
      d.jar == archive[JarEntry] && d.sources == archive[SourcesEntry] &&
      d.pom == env.renderPom(RepositoryUrl, version, id).value &&
      d.repositoryId == RepositoryId && d.url == RepositoryUrl
    ensures run.outcome == Normal <==> run.request.Some? && env.mavenSucceeds(run.request.value)
    ensures JarEntry !in archive || SourcesEntry !in archive ==> run.outcome == Thrown(NullPointerException)
  {
    if JarEntry !in archive || SourcesEntry !in archive then DeployRun(Thrown(NullPointerException), None)
    else match env.renderPom(RepositoryUrl, version, id)
      case Err(e) => DeployRun(Thrown(e), None)
      case Ok(pom) =>
        var d := Deployment(pom, archive[JarEntry], archive[SourcesEntry], RepositoryId, RepositoryUrl);
        DeployRun(if env.mavenSucceeds(d) then Normal else Thrown(RuntimeException(MavenFailed)), Some(d))
  }

  function OptionSet(x: Option<string>): set<string> {
    if x.Some? then {x.value} else {}
  }

  function OptionSeq<T>(x: Option<T>): seq<T> {
    if x.Some? then [x.value] else []
  }

  /** `FileUtils.deleteQuietly`: removes the file if there is one, never throws. */
  function DeleteQuietly(temps: Files, name: Option<string>): (r: Files)
    ensures r.Keys == temps.Keys - OptionSet(name)
    ensures forall p :: p in r ==> r[p] == temps[p]
  {
    if name.Some? then temps - {name.value} else temps
  }

  /**
   * Deleting the temp files a run created, whichever of them it got to create,
   * gives back the temp directory as it was before the run.
   */
  lemma CleanupRestores(before: Files, after: Files, a: Option<string>, b: Option<string>, c: Option<string>)
    requires after.Keys == before.Keys + OptionSet(a) + OptionSet(b) + OptionSet(c)
    requires forall p :: p in before ==> after[p] == before[p]
    requires a.Some? ==> a.value !in before
    requires b.Some? ==> b.value !in before
    requires c.Some? ==> c.value !in before
    ensures DeleteQuietly(DeleteQuietly(DeleteQuietly(after, a), b), c) == before
  {
    var r := DeleteQuietly(DeleteQuietly(DeleteQuietly(after, a), b), c);
    assert r.Keys == before.Keys;
  }

  // Properties of a single download.

  /** A checksum file "<hash>  <name>" gives "<hash>". */
  lemma ExampleChecksum(content: string)
    requires content == "abcd1234  myfile.zip"
    ensures ExpectedHash(content) == Ok("abcd1234")
  {
    var r := ExpectedHash(content);
    assert content[0] != ' ';
    var h := r.value;
    assert forall k :: 0 <= k < 8 ==> content[k] != ' ';
    assert |content| == 20 && content[8] == ' ';
    assert |h| <= 8;
    assert |h| >= 8;
    assert h == content[..8];
    assert content[..8] == "abcd1234";
  }

  /** An existing file with the expected digest is left alone, and nothing counts as downloaded. */
  lemma SkipKeepsFile(files: Files, file: string, md5: Digest, net: Network,
                      downloadUrl: string, checksumUrl: string, hash: string)
    requires checksumUrl in net.texts && ExpectedHash(net.texts[checksumUrl]) == Ok(hash)
    requires IsValid(files, file, md5, hash)
    ensures DownloadSpec(files, file, md5, net, downloadUrl, checksumUrl) == Fetch(Normal, files, false)
  {
  }

  /** Otherwise a complete download replaces whatever the file held. */
  lemma DownloadOverwrites(files: Files, file: string, md5: Digest, net: Network,
                           downloadUrl: string, checksumUrl: string, hash: string, bytes: Bytes)
    requires checksumUrl in net.texts && ExpectedHash(net.texts[checksumUrl]) == Ok(hash)
    requires !IsValid(files, file, md5, hash)
    requires downloadUrl in net.bodies && net.bodies[downloadUrl] == Complete(bytes)
    ensures DownloadSpec(files, file, md5, net, downloadUrl, checksumUrl).files == files[file := bytes]
  {
  }

  /** A download with the wrong digest raises an `IOException` and stays on disk. */
  lemma MismatchKeepsDownload(files: Files, file: string, md5: Digest, net: Network,
                              downloadUrl: string, checksumUrl: string, hash: string, bytes: Bytes)
    requires checksumUrl in net.texts && ExpectedHash(net.texts[checksumUrl]) == Ok(hash)
    requires !IsValid(files, file, md5, hash)
    requires downloadUrl in net.bodies && net.bodies[downloadUrl] == Complete(bytes)
    requires md5(bytes) != hash
    ensures var f := DownloadSpec(files, file, md5, net, downloadUrl, checksumUrl);
      f.outcome == Thrown(IOException(ValidationFailed + hash)) && !f.downloaded &&
      file in f.files && f.files[file] == bytes
  {
  }

  /** Without a local copy, a normal return always means a new download. */
  lemma MissingFileIsDownloaded(files: Files, file: string, md5: Digest, net: Network,
                                downloadUrl: string, checksumUrl: string)
    requires file !in files
    ensures var f := DownloadSpec(files, file, md5, net, downloadUrl, checksumUrl);
      f.outcome == Normal ==> f.downloaded && file in f.files
  {
  }

  /** A call touches no file but its own, and never deletes its own. */
  lemma OnlyTargetChanges(files: Files, file: string, md5: Digest, net: Network,
                          downloadUrl: string, checksumUrl: string)
    ensures var f := DownloadSpec(files, file, md5, net, downloadUrl, checksumUrl);
      (forall p :: p != file ==> (p in f.files <==> p in files)) &&
      (forall p :: p != file && p in files ==> f.files[p] == files[p]) &&
      (file in files ==> file in f.files)
  {
  }

  /** Fetching again from the same network after a normal return skips. */
  lemma SecondFetchSkips(files: Files, file: string, md5: Digest, net: Network,
                         downloadUrl: string, checksumUrl: string)
    requires DownloadSpec(files, file, md5, net, downloadUrl, checksumUrl).outcome == Normal
    ensures var f := DownloadSpec(files, file, md5, net, downloadUrl, checksumUrl);
      DownloadSpec(f.files, file, md5, net, downloadUrl, checksumUrl) == Fetch(Normal, f.files, false)
  {
  }

  /** The checksum "abcd1234  myfile.zip" against a download whose digest is "ffff0000". */
  lemma ExampleMismatch(files: Files, file: string, md5: Digest, net: Network,
                        downloadUrl: string, checksumUrl: string, bytes: Bytes)
    requires checksumUrl in net.texts && net.texts[checksumUrl] == "abcd1234  myfile.zip"
    requires file !in files
    requires downloadUrl in net.bodies && net.bodies[downloadUrl] == Complete(bytes)
    requires md5(bytes) == "ffff0000"
    ensures DownloadSpec(files, file, md5, net, downloadUrl, checksumUrl) ==
      Fetch(Thrown(IOException("MD5 Validation Failed! Expected hash: abcd1234")), files[file := bytes], false)
  {
    ExampleChecksum(net.texts[checksumUrl]);
    assert ValidationFailed + "abcd1234" == "MD5 Validation Failed! Expected hash: abcd1234";
  }

  /** The same checksum against a download whose digest is "abcd1234": a new download. */
  lemma ExampleMatch(files: Files, file: string, md5: Digest, net: Network,
                     downloadUrl: string, checksumUrl: string, bytes: Bytes)
    requires checksumUrl in net.texts && net.texts[checksumUrl] == "abcd1234  myfile.zip"
    requires file !in files
    requires downloadUrl in net.bodies && net.bodies[downloadUrl] == Complete(bytes)
    requires md5(bytes) == "abcd1234"
    ensures DownloadSpec(files, file, md5, net, downloadUrl, checksumUrl) == Fetch(Normal, files[file := bytes], true)
  {
    ExampleChecksum(net.texts[checksumUrl]);
  }

  // Properties of a deployment.

  /** An archive without `src.zip` fails with a `NullPointerException` before Maven runs. */
  lemma MissingSourcesFails(files: Files, file: string, version: string, id: string, env: DeployEnv)
    requires |env.tempNames| >= 3 && file in files && env.unzip(files[file]).Ok?
    requires SourcesEntry !in env.unzip(files[file]).value
    ensures DeploySpec(files, file, version, id, env) == DeployRun(Thrown(NullPointerException), None)
  {
  }

  class Artifact {
    const host: Host
    const file: string
    const artifactVersion: string
    const artifactId: string
    var newDownload: bool

    constructor(host: Host, file: string, artifactVersion: string, artifactId: string)
      ensures this.host == host && this.file == file
      ensures this.artifactVersion == artifactVersion && this.artifactId == artifactId
      ensures !newDownload
    {
      this.host := host;
      this.file := file;
      this.artifactVersion := artifactVersion;
      this.artifactId := artifactId;
      newDownload := false;
    }

    /** Compares the digest of a file on disk with the expected one; a missing file cannot be opened. */
    method ValidateFileMd5(path: string, md5: Digest, expected: string) returns (r: Result<bool, Exception>)
      ensures r.Err? <==> path !in host.files
      ensures r.Err? ==> r.error == FileNotFound(path)
      ensures r.Ok? ==> (r.value <==> IsValid(host.files, path, md5, expected))
    {
      if path !in host.files {
        return Err(FileNotFound(path));
      }
      var calculated := md5(host.files[path]);
      return Ok(calculated == expected);
    }

    method DownloadAndValidate(md5: Digest, net: Network, downloadUrl: string, checksumUrl: string)
      returns (outcome: Outcome<Exception>)
      modifies this`newDownload, host`files
      ensures var f := DownloadSpec(old(host.files), file, md5, net, downloadUrl, checksumUrl);
        outcome == f.outcome && host.files == f.files && newDownload == (old(newDownload) || f.downloaded)
    {
      if checksumUrl !in net.texts {
        return Thrown(NetworkFailure(checksumUrl));
      }
      var md5FileContent := net.texts[checksumUrl];
      var tokens := Split(md5FileContent, Space);
      if |tokens| == 0 {
        return Thrown(IndexOutOfBounds(0, 0));
      }
      var md5Hash := tokens[0];
      if file in host.files {
        var valid := ValidateFileMd5(file, md5, md5Hash);
        match valid {
          case Err(e) =>
            assert false;
          case Ok(same) =>
            if same {
              return Normal;
            }
        }
      }
      host.files := host.files[file := []];
      if downloadUrl !in net.bodies {
        return Thrown(NetworkFailure(downloadUrl));
      }
      match net.bodies[downloadUrl] {
        case Broken(part) =>
          host.files := host.files[file := part];
          return Thrown(NetworkFailure(downloadUrl));
        case Complete(bytes) =>
          host.files := host.files[file := bytes];
      }
      var valid := ValidateFileMd5(file, md5, md5Hash);
      if valid != Ok(true) {
        return Thrown(IOException(ValidationFailed + md5Hash));
      }
      newDownload := true;
      return Normal;
    }

    method IsNewDownload() returns (r: bool)
      ensures r == newDownload
    {
      return newDownload;
    }

    /** `File.createTempFile`: the next name, as a new empty file, or an `IOException`. */
    method CreateTempFile(env: DeployEnv, k: nat) returns (r: Result<string, Exception>)
      modifies host`temps
      ensures k < |env.tempNames| ==> r == Ok(env.tempNames[k]) && host.temps == old(host.temps)[env.tempNames[k] := []]
      ensures k >= |env.tempNames| ==> r == Err(TempFileFailure) && host.temps == old(host.temps)
    {
      if k >= |env.tempNames| {
        return Err(TempFileFailure);
      }
      host.temps := host.temps[env.tempNames[k] := []];
      return Ok(env.tempNames[k]);
    }

    /**
     * Copies one archive entry into a temp file through two streams that are
     * closed again whether or not the copy happens.
     */
    method ExtractFromZip(archive: map<string, Bytes>, name: string, target: string)
      returns (outcome: Outcome<Exception>)
      modifies host`temps, host`handles
      ensures host.handles == old(host.handles)
      ensures name in archive ==> outcome == Normal && host.temps == old(host.temps)[target := archive[name]]
      ensures name !in archive ==> outcome == Thrown(NullPointerException) && host.temps == old(host.temps)
    {
      if name !in archive {
        return Thrown(NullPointerException);
      }
      var input := EntryStream(file, name);
      var output := FileOut(target);
      host.handles := host.handles + multiset{input};
      host.handles := host.handles + multiset{output};
      host.temps := host.temps[target := archive[name]];
      host.handles := host.handles - multiset{input};
      host.handles := host.handles - multiset{output};
      return Normal;
    }

    /** Renders the POM into a temp file through a writer that is always closed. */
    method GeneratePom(env: DeployEnv, pomFile: string) returns (outcome: Outcome<Exception>)
      modifies host`temps, host`handles
      ensures host.handles == old(host.handles)
      ensures env.renderPom(RepositoryUrl, artifactVersion, artifactId).Ok? ==>
        outcome == Normal &&
        host.temps == old(host.temps)[pomFile := env.renderPom(RepositoryUrl, artifactVersion, artifactId).value]
      ensures env.renderPom(RepositoryUrl, artifactVersion, artifactId).Err? ==>
        outcome == Thrown(env.renderPom(RepositoryUrl, artifactVersion, artifactId).error) &&
        host.temps == old(host.temps)[pomFile := []]
    {
      var writer := FileOut(pomFile);
      host.handles := host.handles + multiset{writer};
      host.temps := host.temps[pomFile := []];
      var rendered := env.renderPom(RepositoryUrl, artifactVersion, artifactId);
      match rendered {
        case Ok(pom) =>
          host.temps := host.temps[pomFile := pom];
          outcome := Normal;
        case Err(e) =>
          outcome := Thrown(e);
      }
      host.handles := host.handles - multiset{writer};
    }

    /** Asks Maven to deploy the three files; a failed build is a `RuntimeException`. */
    method RunMavenDeploy(env: DeployEnv, pomFile: string, jarFile: string, sourcesFile: string)
      returns (outcome: Outcome<Exception>)
      requires pomFile in host.temps && jarFile in host.temps && sourcesFile in host.temps
      modifies host`deployments
      ensures var d := Deployment(host.temps[pomFile], host.temps[jarFile], host.temps[sourcesFile],
                                  RepositoryId, RepositoryUrl);
        host.deployments == old(host.deployments) + [d] &&
        outcome == if env.mavenSucceeds(d) then Normal else Thrown(RuntimeException(MavenFailed))
    {
      var request := Deployment(host.temps[pomFile], host.temps[jarFile], host.temps[sourcesFile],
                                RepositoryId, RepositoryUrl);
      host.deployments := host.deployments + [request];
      if env.mavenSucceeds(request) {
        outcome := Normal;
      } else {
        outcome := Thrown(RuntimeException(MavenFailed));
      }
    }

    /** The three `createTempFile` calls; each name is new, and the first failure stops them. */
    method CreateTempFiles(env: DeployEnv)
      returns (jarFile: Option<string>, sourcesFile: Option<string>, pomFile: Option<string>)
      requires FreshNames(env.tempNames, host.temps)
      modifies host`temps
      ensures host.temps.Keys == old(host.temps).Keys + OptionSet(jarFile) + OptionSet(sourcesFile) + OptionSet(pomFile)
      ensures forall p :: p in old(host.temps) ==> host.temps[p] == old(host.temps)[p]
      ensures jarFile.Some? ==> jarFile.value !in old(host.temps)
      ensures sourcesFile.Some? ==> sourcesFile.value !in old(host.temps)
      ensures pomFile.Some? ==> pomFile.value !in old(host.temps)
      ensures (jarFile.Some? && sourcesFile.Some? && pomFile.Some?) <==> |env.tempNames| >= 3
      ensures jarFile.Some? && sourcesFile.Some? && pomFile.Some? ==>
        jarFile.value != sourcesFile.value && jarFile.value != pomFile.value && sourcesFile.value != pomFile.value
    {
      jarFile, sourcesFile, pomFile := None, None, None;
      var created := CreateTempFile(env, 0);
      if created.Ok? {
        jarFile := Some(created.value);
        created := CreateTempFile(env, 1);
        if created.Ok? {
          sourcesFile := Some(created.value);
          created := CreateTempFile(env, 2);
          if created.Ok? {
            pomFile := Some(created.value);
          }
        }
      }
    }

    /**
     * The `try` block of `deploy`: it reports which temp files it created and
     * whether it opened the archive, which the `finally` block then undoes.
     */
    method DeployBody(env: DeployEnv)
      returns (outcome: Outcome<Exception>, jarFile: Option<string>, sourcesFile: Option<string>,
               pomFile: Option<string>, zipOpen: bool)
      requires FreshNames(env.tempNames, host.temps)
      modifies host`temps, host`handles, host`deployments
      ensures host.handles == old(host.handles) + if zipOpen then multiset{ZipHandle(file)} else multiset{}
      ensures host.temps.Keys == old(host.temps).Keys + OptionSet(jarFile) + OptionSet(sourcesFile) + OptionSet(pomFile)
      ensures forall p :: p in old(host.temps) ==> host.temps[p] == old(host.temps)[p]
      ensures jarFile.Some? ==> jarFile.value !in old(host.temps)
      ensures sourcesFile.Some? ==> sourcesFile.value !in old(host.temps)
      ensures pomFile.Some? ==> pomFile.value !in old(host.temps)
      ensures var run := DeploySpec(host.files, file, artifactVersion, artifactId, env);
        outcome == run.outcome && host.deployments == old(host.deployments) + OptionSeq(run.request)
    {
      jarFile, sourcesFile, pomFile := CreateTempFiles(env);
      zipOpen := false;
      if jarFile.None? || sourcesFile.None? || pomFile.None? {
        return Thrown(TempFileFailure), jarFile, sourcesFile, pomFile, zipOpen;
      }
      outcome, zipOpen := DeployFromTemps(env, jarFile.value, sourcesFile.value, pomFile.value);
    }

    /** The rest of the `try` block, once the three temp files exist. */
    method DeployFromTemps(env: DeployEnv, jarFile: string, sourcesFile: string, pomFile: string)
      returns (outcome: Outcome<Exception>, zipOpen: bool)
      requires jarFile in host.temps && sourcesFile in host.temps && pomFile in host.temps
      requires jarFile != sourcesFile && jarFile != pomFile && sourcesFile != pomFile
      modifies host`temps, host`handles, host`deployments
      ensures host.handles == old(host.handles) + if zipOpen then multiset{ZipHandle(file)} else multiset{}
      ensures host.temps.Keys == old(host.temps).Keys
      ensures forall p :: p in host.temps && p != jarFile && p != sourcesFile && p != pomFile ==>
        host.temps[p] == old(host.temps)[p]
      ensures var run := DeployWithTemps(host.files, file, artifactVersion, artifactId, env);
        outcome == run.outcome && host.deployments == old(host.deployments) + OptionSeq(run.request)
    {
      zipOpen := false;
      if file !in host.files {
        return Thrown(FileNotFound(file)), zipOpen;
      }
      var unzipped := env.unzip(host.files[file]);
      if unzipped.Err? {
        return Thrown(unzipped.error), zipOpen;
      }
      host.handles := host.handles + multiset{ZipHandle(file)};
      zipOpen := true;
      outcome := ExtractAndDeploy(env, unzipped.value, jarFile, sourcesFile, pomFile);
    }

    /** `swt.jar` into the jar temp file, then `src.zip` into the sources temp file. */
    method ExtractEntries(archive: map<string, Bytes>, jarFile: string, sourcesFile: string)
      returns (outcome: Outcome<Exception>)
      requires jarFile in host.temps && sourcesFile in host.temps && jarFile != sourcesFile
      modifies host`temps, host`handles
      ensures host.handles == old(host.handles)
      ensures host.temps.Keys == old(host.temps).Keys
      ensures forall p :: p in host.temps && p != jarFile && p != sourcesFile ==>
        host.temps[p] == old(host.temps)[p]
      ensures outcome == if JarEntry in archive && SourcesEntry in archive then Normal else Thrown(NullPointerException)
      ensures outcome == Normal ==>
        host.temps[jarFile] == archive[JarEntry] && host.temps[sourcesFile] == archive[SourcesEntry]
    {
      outcome := ExtractFromZip(archive, JarEntry, jarFile);
      if outcome.Thrown? {
        return;
      }
      outcome := ExtractFromZip(archive, SourcesEntry, sourcesFile);
    }

    /** Extraction of both entries, the POM and the Maven run, on the opened archive. */
    method ExtractAndDeploy(env: DeployEnv, archive: map<string, Bytes>,
                            jarFile: string, sourcesFile: string, pomFile: string)
      returns (outcome: Outcome<Exception>)
      requires jarFile in host.temps && sourcesFile in host.temps && pomFile in host.temps
      requires jarFile != sourcesFile && jarFile != pomFile && sourcesFile != pomFile
      modifies host`temps, host`handles, host`deployments
      ensures host.handles == old(host.handles)
      ensures host.temps.Keys == old(host.temps).Keys
      ensures forall p :: p in host.temps && p != jarFile && p != sourcesFile && p != pomFile ==>
        host.temps[p] == old(host.temps)[p]
      ensures var run := DeployArchive(archive, artifactVersion, artifactId, env);
        outcome == run.outcome && host.deployments == old(host.deployments) + OptionSeq(run.request)
    {
      outcome := ExtractEntries(archive, jarFile, sourcesFile);
      if outcome.Thrown? {
        return;
      }
      outcome := GeneratePom(env, pomFile);
      if outcome.Thrown? {
        return;
      }
      outcome := RunMavenDeploy(env, pomFile, jarFile, sourcesFile);
    }

    /**
     * Deploys the archive's jar and sources: whatever happens, the archive is
     * closed and the temp files are deleted again.
     */
    method Deploy(env: DeployEnv) returns (outcome: Outcome<Exception>)
      requires FreshNames(env.tempNames, host.temps)
      modifies host`temps, host`handles, host`deployments
      ensures host.temps == old(host.temps) && host.handles == old(host.handles)
      ensures var run := DeploySpec(host.files, file, artifactVersion, artifactId, env);
        outcome == run.outcome && host.deployments == old(host.deployments) + OptionSeq(run.request)
    {
      var jarFile, sourcesFile, pomFile, zipOpen;
      outcome, jarFile, sourcesFile, pomFile, zipOpen := DeployBody(env);
      CleanupRestores(old(host.temps), host.temps, jarFile, sourcesFile, pomFile);
      if zipOpen {
        host.handles := host.handles - multiset{ZipHandle(file)};
      }
      host.temps := DeleteQuietly(host.temps, jarFile);
      host.temps := DeleteQuietly(host.temps, sourcesFile);
      host.temps := DeleteQuietly(host.temps, pomFile);
    }
  }
}
