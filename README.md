# swt-release-fetcher, modelled in Dafny

swt-release-fetcher finds the current stable SWT release on eclipse.org. It
downloads the platform archives from the mirror the download page redirects
to, checks each archive against the MD5 checksum file published next to it,
and deploys every newly downloaded archive's `swt.jar` and `src.zip` to a
Maven repository. A separate class, `SwtWebsite`, tells whether the SWT
project page has changed since the last run, using a snapshot file
`pageSource`.

This project models four parts of that core:

- the derivation of the mirror URL, the archive filename, the release prefix
  and the version from the final download link, with Java's `String.split`
  semantics written out (`JavaSplit`, `Release`);
- the six-row platform table and the archive names and URLs built from it
  (`Release`);
- the fetch, validation and deployment of one archive, on a file map, a
  network value and an abstract digest (`Environment`, `Artifacts`);
- the per-package loop of `Main.main` (`Pipeline`) and the change check of
  `SwtWebsite` (`Website`).

The modules and their files:

| file | module | contents |
|---|---|---|
| wrappers.dfy | `Wrappers` | `Option`, `Result`, `Outcome` (how a `void` Java method returns) and the exceptions the core raises |
| java_split.dfy | `JavaSplit` | `String.split(regex)` with limit 0 for fixed-width patterns of literals and `.` |
| release.dfy | `Release` | link splitting, release prefix, version, the package table, URL builders |
| host.dfy | `Environment` | files, network, open handles, Maven requests; the mutable `Host` |
| artifact.dfy | `Artifacts` | `DownloadSpec`/`DeploySpec` and the class `Artifact` proved against them |
| website.dfy | `Website` | `HasChangedSpec` and the class `SwtWebsite` proved against it |
| pipeline.dfy | `Pipeline` | the loop as the function `RunFrom`, the method `FetchPackages` proved against it |

Each method that changes state is tied to a function of the state before the
call: `DownloadAndValidate` to `DownloadSpec`, `Deploy` to `DeploySpec`,
`HasChanged` to `HasChangedSpec`, and `FetchPackages` to `RunAll`. The
properties the program promises are stated as the contracts of those
functions and proved as lemmas about them.

Java exceptions are values. A `void` method returns `Outcome` (`Normal` or
`Thrown(e)`), and a method with a result returns `Result`.

Two behaviours of the code are easy to miss:

- Line 73 of `Main.java` splits the filename on the regex
  `-gtk-linux-x86.zip`, and its unescaped `.` matches any character but a
  line terminator. A filename without that suffix is not rejected. The whole
  filename becomes the release prefix and flows into every URL
  (`Release.PrefixWithoutSuffix`, `Release.SuffixDotIsWildcard`).
- On a checksum mismatch (`Artifact.java` line 97) the message names only the
  expected hash. It does not name both digests (`Artifacts.ExampleMismatch`).

## Model

| member | source | states |
|---|---|---|
| JavaSplit.Split | src/main/java/com/github/swt_release_fetcher/Main.java:65 | every element is at most as long as the text; with no match the result is the whole text alone; with a match the first element is the text before the first match, the last element is not empty, and the result is empty only when the first match is at position 0 |
| JavaSplit.FindFromFirst | src/main/java/com/github/swt_release_fetcher/Main.java:65 | the match `split` cuts at is the first one: no match lies between the search start and it |
| JavaSplit.SplitNoSeparator | src/main/java/com/github/swt_release_fetcher/Main.java:65 | no element of a one-character split holds the separator |
| JavaSplit.SplitSecondElement | src/main/java/com/github/swt_release_fetcher/Main.java:74 | when the split has a second element, the text starts with element 0, the separator and element 1, followed by the end of the text or another separator |
| JavaSplit.SplitLastSegment | src/main/java/com/github/swt_release_fetcher/Main.java:65-66 | for text not ending in the separator, the last split element is the non-empty tail after the last separator, or the whole text when there is none |
| JavaSplit.SplitFirstToken | src/main/java/com/github/swt_release_fetcher/Artifact.java:84 | element 0 of a one-character split is the text before the first separator; the split is empty exactly when the text is a non-empty run of separators |
| JavaSplit.SplitSecondToken | src/main/java/com/github/swt_release_fetcher/Main.java:74 | for `a` and `v` free of the separator, `v` non-empty, followed by nothing or by text starting with the separator, the split of `a`, separator, `v`, tail gives `a` and then `v` as elements 0 and 1 |
| JavaSplit.SplitBeforeSuffix | src/main/java/com/github/swt_release_fetcher/Main.java:73 | a non-empty prefix without the two-character sequence `-g`, followed by one match of the suffix regex, splits into exactly `[prefix]` |
| Release.SplitLink | src/main/java/com/github/swt_release_fetcher/Main.java:65-67 | throws `foo[-1]` exactly when the link is a non-empty run of slashes; otherwise the filename holds no `/` and the mirror URL is a prefix of the link, the two lengths adding up to the link's; for a link not ending in `/` mirror URL + filename == link and the mirror URL is empty or ends in `/` |
| Release.LinkSplitUnique | src/main/java/com/github/swt_release_fetcher/Main.java:65-67 | a mirror that is empty or ends in `/` followed by a non-empty filename without `/` splits back into exactly that mirror and filename |
| Release.TrailingSlashBreaksSplit | src/main/java/com/github/swt_release_fetcher/Main.java:65-67 | for `a/b/` the trailing empty piece is dropped, so the mirror URL is `a/b` and the parts no longer concatenate to the link |
| Release.SlashesOnlyLinkFails | src/main/java/com/github/swt_release_fetcher/Main.java:65-66 | a link made only of slashes splits into nothing and `foo[foo.length - 1]` throws |
| Release.ReleasePrefix | src/main/java/com/github/swt_release_fetcher/Main.java:73 | the release prefix is a prefix of the filename: the part before the first match of the suffix regex, or the whole filename when it does not match; it throws `[0]` only when the regex matches at position 0 |
| Release.PrefixOfReferenceFile | src/main/java/com/github/swt_release_fetcher/Main.java:73 | for a non-empty `prefix` without the sequence `-g`, `prefix + "-gtk-linux-x86.zip"` yields the release prefix `prefix` |
| Release.SuffixDotIsWildcard | src/main/java/com/github/swt_release_fetcher/Main.java:73 | the unescaped `.` matches `_`, so `swt-4.2-gtk-linux-x86_zip` also yields `swt-4.2` |
| Release.PrefixWithoutSuffix | src/main/java/com/github/swt_release_fetcher/Main.java:73 | where the suffix regex matches nowhere, the release prefix is the whole filename and nothing is raised |
| Release.PrefixWithoutDash | src/main/java/com/github/swt_release_fetcher/Main.java:73 | a filename without `-` is its own release prefix |
| Release.VersionName | src/main/java/com/github/swt_release_fetcher/Main.java:74 | a version found is free of `-`, and the prefix is a `-`-free token, `-`, the version, then nothing or text starting with `-`; otherwise an out-of-bounds exception for index 1 |
| Release.VersionToken | src/main/java/com/github/swt_release_fetcher/Main.java:74 | for `a-v` or `a-v-…` with `a`, `v` free of `-` and `v` non-empty, the version is `v` |
| Release.VersionEmptyToken | src/main/java/com/github/swt_release_fetcher/Main.java:74 | two adjacent dashes give an empty version: `a--b` yields `""` |
| Release.VersionTrailingDash | src/main/java/com/github/swt_release_fetcher/Main.java:74 | in `a-` the empty token after the dash is dropped by `split`, so `[1]` throws |
| Release.VersionNeedsDash | src/main/java/com/github/swt_release_fetcher/Main.java:74 | a prefix without `-` makes `[1]` throw |
| Release.DeriveRelease | src/main/java/com/github/swt_release_fetcher/Main.java:65-74 | every failure is an out-of-bounds exception; a derived release has a filename without `/`, a mirror URL that is a prefix of the link, a release prefix that is a prefix of the filename and a version without `-`; for a link not ending in `/`, mirror URL + filename == link |
| Release.LinkRebuilt | src/main/java/com/github/swt_release_fetcher/Main.java:97-98 | when mirror URL + filename is the link and the filename is release prefix + `-gtk-linux-x86.zip`, the download URL of the reference row is the link |
| Release.RoundTrip | src/main/java/com/github/swt_release_fetcher/Main.java:65-98 | for a link not ending in `/` whose filename is release prefix + `-gtk-linux-x86.zip`, the download URL rebuilt for the `gtk-linux-x86.zip` row equals the link |
| Release.ReferenceLink | src/main/java/com/github/swt_release_fetcher/Main.java:65-74 | for a mirror that is empty or ends in `/`, and a non-empty prefix free of `/` and of `-g` whose version is derivable, mirror + prefix + `-gtk-linux-x86.zip` resolves to that mirror, that filename, that prefix and that version |
| Release.ExampleLink | src/main/java/com/github/swt_release_fetcher/Main.java:65-74 | `https://mirror.example/path/to/foo-4.9-gtk-linux-x86.zip` gives the mirror `https://mirror.example/path/to/` and the version `4.9` |
| Release.PackagesDistinct | src/main/java/com/github/swt_release_fetcher/Main.java:77-89 | six rows, `gtk-linux-x86.zip` at index 2, pairwise distinct archive names and artifact ids |
| Release.TargetsDistinct | src/main/java/com/github/swt_release_fetcher/Main.java:97-102 | for a table with pairwise distinct archive names, two different rows get distinct archive file names, download URLs, checksum URLs and local files |
| Release.ZipFileName | src/main/java/com/github/swt_release_fetcher/Main.java:97 | the archive file name is as long as release prefix, `-` and archive name together, starts with release prefix + `-` and ends with the row's archive name |
| Release.DownloadUrl | src/main/java/com/github/swt_release_fetcher/Main.java:98 | the download URL starts with the mirror URL and ends with the row's archive name |
| Release.ChecksumUrl | src/main/java/com/github/swt_release_fetcher/Main.java:99 | the checksum URL starts with the mirror URL followed by `checksum/` and ends with `.md5` |
| Release.LocalPath | src/main/java/com/github/swt_release_fetcher/Main.java:91-102 | the local file is `downloads/` followed by the archive file name |
| Release.UrlLayout | src/main/java/com/github/swt_release_fetcher/Main.java:98-99 | the checksum URL is the download URL with `checksum/` inserted after the mirror URL and `.md5` appended |
| Artifacts.ExpectedHash | src/main/java/com/github/swt_release_fetcher/Artifact.java:83-84 | the expected hash is the checksum text before its first space, all of it when it has none; an all-space text throws on `[0]` |
| Artifacts.ExampleChecksum | src/main/java/com/github/swt_release_fetcher/Artifact.java:84 | `abcd1234  myfile.zip` gives `abcd1234` |
| Artifacts.DeleteQuietly | src/main/java/com/github/swt_release_fetcher/Artifact.java:144-146 | removes the named temp file when there is one and keeps every other |
| Artifacts.CleanupRestores | src/main/java/com/github/swt_release_fetcher/Artifact.java:140-147 | deleting whichever temp files were created gives back the temp directory as it was |
| Artifacts.DownloadSpec | src/main/java/com/github/swt_release_fetcher/Artifact.java:82-101 | on a normal return the checksum was read and the file stands on disk with the expected digest; the call is a new download exactly when it returned normally and the file did not already have that digest |
| Artifacts.SkipKeepsFile | src/main/java/com/github/swt_release_fetcher/Artifact.java:85-88 | when the checksum is read and parsed, an existing file with the expected digest is left unchanged, and the call is not a new download |
| Artifacts.DownloadOverwrites | src/main/java/com/github/swt_release_fetcher/Artifact.java:90-95 | when the checksum is read and parsed, the file does not already have the expected digest and the download completes, the file's contents become exactly the downloaded bytes |
| Artifacts.MismatchKeepsDownload | src/main/java/com/github/swt_release_fetcher/Artifact.java:96-98 | when the checksum is read and parsed and the file does not already have the expected digest, a completed download with the wrong digest throws `IOException("MD5 Validation Failed! Expected hash: " + hash)`, is not new, and stays on disk |
| Artifacts.MissingFileIsDownloaded | src/main/java/com/github/swt_release_fetcher/Artifact.java:85-99 | with no local file, a normal return is always a new download |
| Artifacts.OnlyTargetChanges | src/main/java/com/github/swt_release_fetcher/Artifact.java:82-101 | no file but the artifact's own changes, and that one is never deleted |
| Artifacts.SecondFetchSkips | src/main/java/com/github/swt_release_fetcher/Artifact.java:85-88 | fetching again after a normal return skips and changes nothing |
| Artifacts.ExampleMismatch | src/main/java/com/github/swt_release_fetcher/Artifact.java:82-98 | with no local file, checksum `abcd1234  myfile.zip` against a completed download with digest `ffff0000` throws the validation `IOException` and keeps the download |
| Artifacts.ExampleMatch | src/main/java/com/github/swt_release_fetcher/Artifact.java:82-99 | with no local file, the same checksum against a completed download with digest `abcd1234` returns normally as a new download |
| Artifacts.DeploySpec | src/main/java/com/github/swt_release_fetcher/Artifact.java:122-148 | Maven is asked to deploy exactly when three temp files, the archive, both entries and the POM were all had; `deploy` returns normally exactly when Maven then succeeds; too few temp files give the `IOException` of `createTempFile` |
| Artifacts.DeployWithTemps | src/main/java/com/github/swt_release_fetcher/Artifact.java:133-138 | Maven is asked exactly when the archive exists and opens, holds both entries and the POM renders; normal return exactly when Maven succeeds; a missing archive is a `FileNotFoundException` |
| Artifacts.DeployArchive | src/main/java/com/github/swt_release_fetcher/Artifact.java:134-138 | Maven is asked exactly when both entries are there and the POM renders, and then deploys `swt.jar` as the jar and `src.zip` as the sources, with the rendered POM, repository id `googlecode` and the repository URL; a missing entry is a `NullPointerException` |
| Artifacts.MissingSourcesFails | src/main/java/com/github/swt_release_fetcher/Artifact.java:134-135 | when three temp files can be created and the local archive exists and opens, an archive without `src.zip` throws a `NullPointerException` before Maven runs |
| Artifacts.Artifact.constructor | src/main/java/com/github/swt_release_fetcher/Artifact.java:63-70 | records the file, version and artifact id; `newDownload` starts false |
| Artifacts.Artifact.ValidateFileMd5 | src/main/java/com/github/swt_release_fetcher/Artifact.java:72-80 | true exactly when the file's digest equals the expected one; a missing file cannot be opened |
| Artifacts.Artifact.DownloadAndValidate | src/main/java/com/github/swt_release_fetcher/Artifact.java:82-101 | the outcome and the new files are those of `DownloadSpec`; `newDownload` only ever becomes true, and does so exactly on a completed download |
| Artifacts.Artifact.IsNewDownload | src/main/java/com/github/swt_release_fetcher/Artifact.java:211-213 | reports the flag and changes nothing |
| Artifacts.Artifact.CreateTempFile | src/main/java/com/github/swt_release_fetcher/Artifact.java:129-131 | a new empty temp file with the next name, or the `IOException` once the names run out |
| Artifacts.Artifact.CreateTempFiles | src/main/java/com/github/swt_release_fetcher/Artifact.java:129-131 | up to three new, pairwise distinct temp files; the first failure stops the rest |
| Artifacts.Artifact.ExtractFromZip | src/main/java/com/github/swt_release_fetcher/Artifact.java:193-205 | copies the named entry into the target, or throws `NullPointerException` for a missing entry; both streams are closed either way |
| Artifacts.Artifact.GeneratePom | src/main/java/com/github/swt_release_fetcher/Artifact.java:103-120 | writes the POM rendered from repository URL, version and artifact id, or throws the rendering failure; the writer is closed either way |
| Artifacts.Artifact.RunMavenDeploy | src/main/java/com/github/swt_release_fetcher/Artifact.java:168-191 | asks Maven to deploy the three files to `googlecode` at the repository URL; a failed build is `RuntimeException("Maven deploy failed!")` |
| Artifacts.Artifact.DeployBody | src/main/java/com/github/swt_release_fetcher/Artifact.java:128-139 | the `try` block: outcome and Maven request as `DeploySpec` says, reporting which temp files exist and whether the archive is open |
| Artifacts.Artifact.DeployFromTemps | src/main/java/com/github/swt_release_fetcher/Artifact.java:133-138 | opening the archive, then everything after it, as `DeployWithTemps` says |
| Artifacts.Artifact.ExtractEntries | src/main/java/com/github/swt_release_fetcher/Artifact.java:134-135 | `swt.jar` goes into the jar temp file and `src.zip` into the sources temp file; a missing entry throws `NullPointerException`; no other temp file and no handle changes |
| Artifacts.Artifact.ExtractAndDeploy | src/main/java/com/github/swt_release_fetcher/Artifact.java:134-138 | both extractions, the POM and the Maven run, as `DeployArchive` says; no handle is left open |
| Artifacts.Artifact.Deploy | src/main/java/com/github/swt_release_fetcher/Artifact.java:122-148 | outcome and Maven request as `DeploySpec` says; on every exit path the archive is closed and the temp directory is as before |
| Website.HasChangedSpec | src/main/java/com/github/swt_release_fetcher/SwtWebsite.java:39-76 | the call throws exactly when a file operation it performs fails (create a missing file, read an existing one, write a changed page), always with an `IOException`; after any normal return the snapshot is the page |
| Website.FirstRun | src/main/java/com/github/swt_release_fetcher/SwtWebsite.java:43-70 | with no snapshot file, when no file operation fails, the answer is true unless the page is empty, and the page is stored |
| Website.FalseIffUnchanged | src/main/java/com/github/swt_release_fetcher/SwtWebsite.java:63-64 | false exactly when the persisted snapshot equals the page; an existing snapshot is then unchanged |
| Website.ChangedOverwrites | src/main/java/com/github/swt_release_fetcher/SwtWebsite.java:67-70 | when no file operation fails, a page different from the snapshot overwrites it and the answer is true |
| Website.SecondCallUnchanged | src/main/java/com/github/swt_release_fetcher/SwtWebsite.java:63-70 | after a first call that returned normally, a second call with the same page whose read of the snapshot succeeds answers false and writes nothing |
| Website.SwtWebsite.HasChanged | src/main/java/com/github/swt_release_fetcher/SwtWebsite.java:39-76 | answer and new snapshot are those of `HasChangedSpec` on the old snapshot |
| Pipeline.VisitPackage | src/main/java/com/github/swt_release_fetcher/Main.java:102-107 | one package adds at most one step, for its own archive, exactly when `downloadAndValidate` returned normally; the step's `isNew` is that call's flag and `deploy` ran exactly when it was set; a normal visit always adds its step; its files are those the fetch leaves, and Maven is asked nothing unless the fetch was a new download |
| Pipeline.RunFrom | src/main/java/com/github/swt_release_fetcher/Main.java:96-108 | the loop only appends to the steps and the deployments, adds at most one step per remaining package, and one for each when it returns normally |
| Pipeline.RunAll | src/main/java/com/github/swt_release_fetcher/Main.java:96-108 | a whole run keeps the earlier deployments, takes at most one step per row, and a run that returns normally took one step per row |
| Pipeline.RunStepAt | src/main/java/com/github/swt_release_fetcher/Main.java:96-107 | the k-th step is for the k-th package in table order, and `deploy` was called for it exactly when `isNewDownload` was true |
| Pipeline.VisitKeepsOtherFiles | src/main/java/com/github/swt_release_fetcher/Main.java:102-103 | one package writes no file but its own: any other path is left as it was |
| Pipeline.RunKeepsOtherFiles | src/main/java/com/github/swt_release_fetcher/Main.java:96-108 | a path no remaining package downloads to is left as it was |
| Pipeline.VisitLeavesValidFile | src/main/java/com/github/swt_release_fetcher/Main.java:102-103 | a package handled normally leaves its archive on disk with its expected digest |
| Pipeline.NormalRunLeavesValidFiles | src/main/java/com/github/swt_release_fetcher/Main.java:96-108 | for a table with pairwise distinct archive names, after a normal run every package's archive is on disk with its expected digest |
| Pipeline.NormalRunOverTable | src/main/java/com/github/swt_release_fetcher/Main.java:77-108 | for the program's table, a normal run took six steps in table order and left all six archives valid |
| Pipeline.HandlePackage | src/main/java/com/github/swt_release_fetcher/Main.java:97-107 | one loop body: names, `Artifact`, fetch, and deploy when new, with the effect `VisitPackage` states; temps and handles unchanged |
| Pipeline.FetchPackages | src/main/java/com/github/swt_release_fetcher/Main.java:96-108 | the loop's outcome, files, deployments and steps are those of `RunAll`; temps and handles unchanged |
| Pipeline.FetchRelease | src/main/java/com/github/swt_release_fetcher/Main.java:65-108 | a link the derivation rejects throws before anything is fetched; otherwise the run is `RunAll` over the program's table |

## Left out

- The headless-browser navigation that finds the final download link (`Main.java` lines 42-62), and `driver.get`/`getPageSource` in `SwtWebsite`. This is browser and network I/O. The link and the page text are inputs.
- MD5 itself (RFC 1321). The digest is a parameter `Digest = Bytes -> string`.
- Byte streams, `IOUtils.copy` and `new URL(...)`. Only their effect on the file map is modelled. A `MalformedURLException` cannot arise in the model, because URLs are plain strings.
- The download's input stream (`Artifact.java` line 92) and the checksum's input stream read by `IOUtils.toString(checksumUrl.openStream())` (line 83) are never closed. Handles are tracked only for `deploy`, so these leaks are not visible in the model.
- The platform table `Release.Packages` is a constant, which cannot carry a contract of its own; `Release.PackagesDistinct` states its properties.
- Failures of `close()` are not modelled.
- Velocity's templating and its `init` (`Artifact.java` lines 104-116). Rendering is the parameter `renderPom`. A rendering failure is modelled after the writer has truncated the POM file, even when Java's `Velocity.init` would fail before that.
- Maven and Plexus: `initMaven`, the execution of `deploy:deploy-file`, and `EmbeddedMaven.java`. Whether the build succeeds is the parameter `mavenSucceeds`, and the request is recorded in `Host.deployments`.
- Zip decoding. Opening an archive is the parameter `unzip`, which gives the entries by name or the exception `ZipFile` raises.
- Temp file names are supplied in order by `DeployEnv.tempNames`.
- Artifacts.Artifact.Deploy: requires `FreshNames`, i.e. that the names are new and pairwise distinct; so do `Artifacts.Artifact.CreateTempFiles`, `Artifacts.Artifact.DeployBody`, `Pipeline.HandlePackage`, `Pipeline.FetchPackages` and `Pipeline.FetchRelease`, the members along the call chain from `FetchRelease` down to `CreateTempFiles`. This states what `File.createTempFile` guarantees; the Java caller demands nothing.
- The message texts of exceptions raised by the Java library (`FileNotFoundException`, `NullPointerException`, `ArrayIndexOutOfBoundsException`) are not reproduced. Messages the core builds itself are.
- Charset handling of `pageSource`: it is read as UTF-8 and written in the platform default. Strings are plain character sequences.
- `SwtWebsite` reaches its file by the relative name `pageSource` in the working directory. The model holds the absolute path as a constant (`absolutePath`) and does not derive it.
- Logging, console output and the `SURPRESS_WARNINGS` switch.
- The `mkdirs` of the `downloads` directory (`Main.java` lines 91-94). Files are a flat map keyed by path.
- `PackageInfo.java` is not part of this model. Its two fields are read off their uses in `Main.java`.
- `getFile` (`Artifact.java` lines 207-209) is a trivial getter.
- The caller of `SwtWebsite.hasChanged` is not part of this model, because the `main` shown does not call it.
