/**
 * The release strings `Main.main` derives from the final download link, the
 * fixed platform table, and the per-package names and URLs built from them.
 */
module Release {
  import opened Wrappers
  import opened JavaSplit

  /** The mirror base URL and the trailing filename cut from the download link. */
  datatype Location = Location(mirrorUrl: string, filename: string)

  /** Everything the per-package loop reads from the resolved link. */
  datatype ReleaseInfo = ReleaseInfo(mirrorUrl: string, filename: string, releasePrefix: string, versionName: string)

  /** One row of the platform table: archive suffix and Maven artifact id. */
  datatype PackageInfo = PackageInfo(zipName: string, artifactId: string)

  /** The reference platform whose archive the scraped link points at. */
  const ReferenceSuffix: string := "-gtk-linux-x86.zip"

  /** The directory downloads are stored in. */
  const DownloadDir: string := "downloads"

  /** A link that does not end in `/`, so that `split` keeps its last segment. */
  predicate NoTrailingSlash(link: string) {
    link == "" || link[|link| - 1] != '/'
  }

  /**
   * `Main.java` lines 65-67: the filename is the last `/`-separated element and the mirror
   * URL is the link with that many characters cut from its end. An empty split
   * (a link made of slashes only, and only such a link) throws on
   * `foo[foo.length - 1]`. For a link that does not end in `/` the two parts
   * concatenate back to the link, and the mirror URL is empty or ends in `/`.
   */
  function SplitLink(link: string): (r: Result<Location, Exception>)
    ensures r.Err? <==> link != "" && forall k :: 0 <= k < |link| ==> link[k] == '/'
    ensures r.Err? ==> r.error == IndexOutOfBounds(-1, 0)
    ensures r.Ok? ==> ('/' !in r.value.filename && r.value.mirrorUrl <= link &&
                       |r.value.mirrorUrl| + |r.value.filename| == |link|)
    ensures NoTrailingSlash(link) ==> (r.Ok? && r.value.mirrorUrl + r.value.filename == link &&
                                       DirectoryUrl(r.value.mirrorUrl))
  {
    var foo := Split(link, Slash);
    SplitFirstToken(link, '/');
    SplitNoSeparator(link, '/');
    SplitLinkParts(link);
    if |foo| == 0 then Err(IndexOutOfBounds(-1, 0))
    else
      var filename := foo[|foo| - 1];
      Ok(Location(link[..|link| - |filename|], filename))
  }

  /** A mirror URL as the split leaves it: empty, or ending in `/`. */
  predicate DirectoryUrl(mirror: string) {
    mirror == "" || mirror[|mirror| - 1] == '/'
  }

  /** The last segment of a link without a trailing `/` is a suffix preceded by `/` when shorter. */
  lemma SplitLinkParts(link: string)
    ensures var foo := Split(link, Slash);
      NoTrailingSlash(link) ==> |foo| > 0 && var f := foo[|foo| - 1];
        link[..|link| - |f|] + f == link && DirectoryUrl(link[..|link| - |f|])
  {
    if NoTrailingSlash(link) {
      SplitLastSegment(link, '/');
      var foo := Split(link, Slash);
      var f := foo[|foo| - 1];
      assert link[..|link| - |f|] + f == link;
    }
  }

  /**
   * `Main.java` line 73: `releaseName[0]` of the split on the suffix regex: the filename
   * up to the first match of the regex, or the whole filename when there is
   * none. It throws only when the regex matches at the very start.
   */
  function ReleasePrefix(filename: string): (r: Result<string, Exception>)
    ensures r.Ok? ==> r.value <= filename
    ensures r.Ok? ==> ((FindFrom(filename, GtkSuffixRegex, 0).None? && r.value == filename) ||
                       FindFrom(filename, GtkSuffixRegex, 0) == Some(|r.value|))
    ensures r.Err? ==> FindFrom(filename, GtkSuffixRegex, 0) == Some(0) && r.error == IndexOutOfBounds(0, 0)
  {
    var releaseName := Split(filename, GtkSuffixRegex);
    if |releaseName| == 0 then Err(IndexOutOfBounds(0, 0)) else Ok(releaseName[0])
  }

  /**
   * `Main.java` line 74: the second `-`-separated token of the release prefix. When it
   * exists, the prefix is a `-`-free token, a `-`, the version, and either
   * nothing or more text starting with `-`; otherwise `[1]` is out of bounds.
   */
  function VersionName(prefix: string): (r: Result<string, Exception>)
    ensures r.Ok? ==> '-' !in r.value && exists a, tail :: VersionShape(prefix, a, r.value, tail)
    ensures r.Err? ==> r.error.IndexOutOfBounds? && r.error.index == 1
  {
    var tokens := Split(prefix, Dash);
    if |tokens| < 2 then Err(IndexOutOfBounds(1, |tokens|))
    else
      VersionParts(prefix);
      Ok(tokens[1])
  }

  /**
   * `prefix` is a `-`-free token `a`, a `-`, the token `v`, and a tail that
   * is empty or starts with `-`.
   */
  predicate VersionShape(prefix: string, a: string, v: string, tail: string) {
    prefix == a + "-" + v + tail && '-' !in a && (tail == "" || tail[0] == '-')
  }

  /** The shape of a prefix whose split on `-` has a second token. */
  lemma VersionParts(prefix: string)
    requires |Split(prefix, Dash)| >= 2
    ensures var v := Split(prefix, Dash)[1]; '-' !in v && exists a, tail :: VersionShape(prefix, a, v, tail)
  {
    var tokens := Split(prefix, Dash);
    SplitSecondElement(prefix, '-');
    var n := |tokens[0]| + 1 + |tokens[1]|;
    var a, tail := tokens[0], prefix[n..];
    assert prefix == prefix[..n] + tail;
    assert tail != "" ==> tail[0] == prefix[n];
    assert VersionShape(prefix, a, tokens[1], tail);
  }

  /**
   * `Main.java` lines 65-74 in order; the first exception aborts the run, and every
   * exception is an out-of-bounds index. A derived release has a
   * `/`-free filename that starts with its release prefix and a `-`-free
   * version, and for a link without a trailing `/` the mirror URL followed by
   * the filename is the link.
   */
  function DeriveRelease(link: string): (r: Result<ReleaseInfo, Exception>)
    ensures r.Err? ==> r.error.IndexOutOfBounds?
    ensures r.Ok? ==> ('/' !in r.value.filename && r.value.mirrorUrl <= link &&
                       r.value.releasePrefix <= r.value.filename && '-' !in r.value.versionName)
    ensures r.Ok? && NoTrailingSlash(link) ==> r.value.mirrorUrl + r.value.filename == link
  {
    var loc := SplitLink(link);
    if loc.Err? then Err(loc.error)
    else
      var prefix := ReleasePrefix(loc.value.filename);
      if prefix.Err? then Err(prefix.error)
      else
        var version := VersionName(prefix.value);
        if version.Err? then Err(version.error)
        else Ok(ReleaseInfo(loc.value.mirrorUrl, loc.value.filename, prefix.value, version.value))
  }

  /** `Main.java` lines 77-89: the six platform archives and their artifact ids, in order. */
  const Packages: seq<PackageInfo> := [
    PackageInfo("win32-win32-x86.zip", "org.eclipse.swt.win32.win32.x86"),
    PackageInfo("win32-win32-x86_64.zip", "org.eclipse.swt.win32.win32.x86_64"),
    PackageInfo("gtk-linux-x86.zip", "org.eclipse.swt.gtk.linux.x86"),
    PackageInfo("gtk-linux-x86_64.zip", "org.eclipse.swt.gtk.linux.x86_64"),
    PackageInfo("cocoa-macosx.zip", "org.eclipse.swt.cocoa.macosx"),
    PackageInfo("cocoa-macosx-x86_64.zip", "org.eclipse.swt.cocoa.macosx.x86_64")
  ]

  /** The index of the `gtk-linux-x86.zip` row. */
  const ReferenceIndex: nat := 2

  /** `Main.java` line 97: the archive file name is the release prefix, a `-` and the row's archive name. */
  function ZipFileName(r: ReleaseInfo, pkg: PackageInfo): (z: string)
    ensures |z| == |r.releasePrefix| + 1 + |pkg.zipName|
    ensures r.releasePrefix + "-" <= z && z[|z| - |pkg.zipName|..] == pkg.zipName
  {
    r.releasePrefix + "-" + pkg.zipName
  }

  /** `Main.java` line 98: the download URL lies under the mirror and ends in the row's archive name. */
  function DownloadUrl(r: ReleaseInfo, pkg: PackageInfo): (u: string)
    ensures r.mirrorUrl <= u && |u| >= |pkg.zipName| && u[|u| - |pkg.zipName|..] == pkg.zipName
  {
    r.mirrorUrl + ZipFileName(r, pkg)
  }

  /** `Main.java` line 99: the checksum URL lies in the mirror's `checksum/` directory and ends in `.md5`. */
  function ChecksumUrl(r: ReleaseInfo, pkg: PackageInfo): (u: string)
    ensures r.mirrorUrl + "checksum/" <= u && |u| >= 4 && u[|u| - 4..] == ".md5"
  {
    r.mirrorUrl + "checksum/" + ZipFileName(r, pkg) + ".md5"
  }

  /** `Main.java` line 102, `new File(downloadDir, zipFileName)`: a file of the download directory named after the archive. */
  function LocalPath(r: ReleaseInfo, pkg: PackageInfo): (l: string)
    ensures DownloadDir + "/" <= l && l[|DownloadDir| + 1..] == ZipFileName(r, pkg)
  {
    DownloadDir + "/" + ZipFileName(r, pkg)
  }

  /**
   * The filename and mirror URL are determined uniquely by the facts
   * `SplitLink` ensures for a link without a trailing `/`: a link that is a mirror ending in `/` (or empty) and a
   * non-empty filename without `/` splits back into exactly those two parts.
   */
  lemma LinkSplitUnique(mirror: string, filename: string)
    requires DirectoryUrl(mirror)
    requires filename != "" && '/' !in filename
    ensures SplitLink(mirror + filename) == Ok(Location(mirror, filename))
  {
    var link := mirror + filename;
    assert link[|link| - 1] == filename[|filename| - 1];
    var loc := SplitLink(link).value;
    DirectoryUnique(mirror, filename, loc.mirrorUrl, loc.filename);
  }

  /** A string splits in at most one way into a directory URL and a name without `/`. */
  lemma DirectoryUnique(m: string, f: string, m2: string, f2: string)
    requires m + f == m2 + f2 && DirectoryUrl(m) && DirectoryUrl(m2)
    requires '/' !in f && '/' !in f2
    ensures m == m2 && f == f2
  {
    var s := m + f;
    AppendAt(m, f, |m2| - 1);
    AppendAt(m2, f2, |m| - 1);
    if |m| < |m2| {
      assert false;
    } else if |m| > |m2| {
      assert false;
    }
    assert m == s[..|m|] && m2 == s[..|m2|];
  }

  /** Index `j` of `a + b` read in `b`. */
  lemma AppendAt(a: string, b: string, j: int)
    ensures |a| <= j < |a| + |b| ==> (a + b)[j] == b[j - |a|]
  {
  }

  /**
   * A link ending in `/` loses its trailing empty segment: for `a/b/` the
   * filename is `b` but only one character is cut, so the mirror URL is `a/b`
   * and mirror URL plus filename is not the link.
   */
  lemma TrailingSlashBreaksSplit(s: string)
    requires s == "a/b/"
    ensures SplitLink(s) == Ok(Location("a/b", "b"))
    ensures "a/b" + "b" != s
  {
    TrailingSlashPieces(s);
    assert StripTrailingEmpty(["a", "b", ""]) == StripTrailingEmpty(["a", "b"]);
    assert Split(s, Slash) == ["a", "b"];
    assert s[..|s| - 1] == "a/b";
  }

  lemma TrailingSlashPieces(s: string)
    requires s == "a/b/"
    ensures FindFrom(s, Slash, 0).Some? && Pieces(s, Slash) == ["a", "b", ""]
  {
    var p := Slash;
    MatchesAtChar(s, '/', 0);
    MatchesAtChar(s, '/', 1);
    MatchesAtChar(s, '/', 2);
    MatchesAtChar(s, '/', 3);
    FirstMatchAt(s, p, 0, 1);
    FirstMatchAt(s, p, 2, 3);
    PiecesStep(s, p, 0, 1);
    PiecesStep(s, p, 2, 3);
    assert s[0..1] == "a" && s[2..3] == "b";
    assert PiecesFrom(s, p, 4) == [""];
  }

  /** A link made only of slashes has nothing left after the split and throws. */
  lemma SlashesOnlyLinkFails(link: string)
    requires link != "" && forall k :: 0 <= k < |link| ==> link[k] == '/'
    ensures SplitLink(link).Err?
  {
    SplitFirstToken(link, '/');
  }

  /**
   * `Main.java` line 73: for a filename that is a non-empty prefix followed by the
   * reference suffix, the release prefix is that prefix, provided it cannot
   * hide an earlier match of the suffix regex.
   */
  lemma PrefixOfReferenceFile(prefix: string)
    requires prefix != "" && NoDashG(prefix)
    ensures ReleasePrefix(prefix + ReferenceSuffix) == Ok(prefix)
  {
    assert Accepts(GtkSuffixRegex[14], '.');
    SplitBeforeSuffix(prefix, ReferenceSuffix);
  }

  /**
   * The `.` of the suffix regex matches any character but a line terminator: a filename with `_`
   * in its place still yields the prefix.
   */
  lemma SuffixDotIsWildcard()
    ensures ReleasePrefix("swt-4.2-gtk-linux-x86_zip") == Ok("swt-4.2")
  {
    assert "swt-4.2-gtk-linux-x86_zip" == "swt-4.2" + "-gtk-linux-x86_zip";
    assert Accepts(GtkSuffixRegex[14], '_');
    SplitBeforeSuffix("swt-4.2", "-gtk-linux-x86_zip");
  }

  /**
   * `Main.java` line 73 with no suffix in the filename: nothing is split off and no
   * exception is raised, so the release prefix is the whole filename.
   */
  lemma PrefixWithoutSuffix(filename: string)
    requires forall i :: !MatchesAt(filename, GtkSuffixRegex, i)
    ensures ReleasePrefix(filename) == Ok(filename)
  {
  }

  /** A filename without `-` cannot hold the suffix, so it is its own release prefix. */
  lemma PrefixWithoutDash(filename: string)
    requires '-' !in filename
    ensures ReleasePrefix(filename) == Ok(filename)
  {
    forall i | 0 <= i ensures !MatchesAt(filename, GtkSuffixRegex, i) {
      if i < |filename| {
        assert !Accepts(GtkSuffixRegex[0], filename[i + 0]);
      }
    }
  }

  /**
   * `Main.java` line 74: the version is the second `-`-separated token: for
   * `a-v` or `a-v-...` with `a` and `v` free of `-` and `v` non-empty it is `v`.
   */
  lemma VersionToken(a: string, v: string, tail: string)
    requires '-' !in a && '-' !in v && v != ""
    requires tail == "" || tail[0] == '-'
    ensures VersionName(a + "-" + v + tail) == Ok(v)
  {
    SplitSecondToken(a, v, tail, '-');
  }

  /** Two adjacent dashes give an empty second token, so the version of `a--b` is empty. */
  lemma VersionEmptyToken(s: string)
    requires s == "a--b"
    ensures VersionName(s) == Ok("")
  {
    var p := Dash;
    MatchesAtChar(s, '-', 0);
    MatchesAtChar(s, '-', 1);
    MatchesAtChar(s, '-', 2);
    MatchesAtChar(s, '-', 3);
    FirstMatchAt(s, p, 0, 1);
    FirstMatchAt(s, p, 2, 2);
    PiecesStep(s, p, 0, 1);
    PiecesStep(s, p, 2, 2);
    assert s[0..1] == "a" && s[2..2] == "" && s[3..] == "b";
    assert PiecesFrom(s, p, 3) == ["b"];
    assert Pieces(s, p) == ["a", "", "b"];
    assert Split(s, p) == ["a", "", "b"];
  }

  /** A trailing dash leaves only an empty second token, which `split` drops, so `a-` throws. */
  lemma VersionTrailingDash(s: string)
    requires s == "a-"
    ensures VersionName(s).Err?
  {
    var p := Dash;
    MatchesAtChar(s, '-', 0);
    MatchesAtChar(s, '-', 1);
    FirstMatchAt(s, p, 0, 1);
    PiecesStep(s, p, 0, 1);
    assert s[0..1] == "a";
    assert PiecesFrom(s, p, 2) == [""];
    assert Pieces(s, p) == ["a", ""];
    assert StripTrailingEmpty(["a", ""]) == StripTrailingEmpty(["a"]);
    assert Split(s, p) == ["a"];
  }

  /** `Main.java` line 74 on a prefix without `-`: `[1]` is out of bounds. */
  lemma VersionNeedsDash(prefix: string)
    requires '-' !in prefix
    ensures VersionName(prefix).Err?
  {
    SplitFirstToken(prefix, '-');
    var r := Split(prefix, Dash);
    if |r| >= 2 {
      forall i | 0 <= i ensures !MatchesAt(prefix, Dash, i) {
        MatchesAtChar(prefix, '-', i);
      }
    }
  }

  /** When all three steps succeed, the release is made of their results. */
  lemma DeriveFromSteps(link: string, loc: Location, prefix: string, version: string)
    requires SplitLink(link) == Ok(loc)
    requires ReleasePrefix(loc.filename) == Ok(prefix)
    requires VersionName(prefix) == Ok(version)
    ensures DeriveRelease(link) == Ok(ReleaseInfo(loc.mirrorUrl, loc.filename, prefix, version))
  {
  }

  /** A link that is a mirror URL and a filename made of a prefix and the reference suffix is the download URL of the reference row. */
  lemma LinkRebuilt(link: string, r: ReleaseInfo)
    requires r.mirrorUrl + r.filename == link
    requires r.filename == r.releasePrefix + ReferenceSuffix
    ensures DownloadUrl(r, Packages[ReferenceIndex]) == link
  {
    var z := Packages[ReferenceIndex];
    assert "-" + z.zipName == ReferenceSuffix;
    assert ZipFileName(r, z) == r.releasePrefix + ("-" + z.zipName);
  }

  /**
   * The round trip of lines 65-98: when the filename is the release prefix
   * followed by the reference suffix, the download URL rebuilt for the
   * `gtk-linux-x86.zip` row is the original link.
   */
  lemma RoundTrip(link: string, r: ReleaseInfo)
    requires NoTrailingSlash(link) && DeriveRelease(link) == Ok(r)
    requires r.filename == r.releasePrefix + ReferenceSuffix
    ensures DownloadUrl(r, Packages[ReferenceIndex]) == link
  {
    LinkRebuilt(link, r);
  }

  /**
   * A link made of a mirror ending in `/`, a release prefix and the reference
   * suffix resolves to that mirror, that prefix and the version of the prefix.
   */
  lemma ReferenceLink(link: string, mirror: string, prefix: string, version: string)
    requires DirectoryUrl(mirror)
    requires prefix != "" && '/' !in prefix && NoDashG(prefix) && VersionName(prefix) == Ok(version)
    requires link == mirror + prefix + ReferenceSuffix
    ensures DeriveRelease(link) == Ok(ReleaseInfo(mirror, prefix + ReferenceSuffix, prefix, version))
  {
    var filename := prefix + ReferenceSuffix;
    assert '/' !in filename;
    assert link == mirror + filename;
    LinkSplitUnique(mirror, filename);
    PrefixOfReferenceFile(prefix);
    DeriveFromSteps(link, Location(mirror, filename), prefix, version);
  }

  lemma ExamplePrefix(prefix: string)
    requires prefix == "foo-4.9"
    ensures prefix != "" && '/' !in prefix && NoDashG(prefix) && VersionName(prefix) == Ok("4.9")
  {
    assert prefix == "foo" + "-" + "4.9" + "";
    VersionToken("foo", "4.9", "");
  }

  /**
   * A mirror link to `foo-4.9-gtk-linux-x86.zip` resolves to the link's
   * directory as mirror URL, `foo-4.9` as release prefix and `4.9` as version.
   */
  lemma ExampleLink(link: string, mirror: string, prefix: string)
    requires link == "https://mirror.example/path/to/foo-4.9-gtk-linux-x86.zip"
    requires mirror == "https://mirror.example/path/to/" && prefix == "foo-4.9"
    ensures DeriveRelease(link) == Ok(ReleaseInfo(mirror, prefix + ReferenceSuffix, prefix, "4.9"))
  {
    ExamplePrefix(prefix);
    ExampleParts(link, mirror, prefix);
    ReferenceLink(link, mirror, prefix, "4.9");
  }

  lemma ExampleParts(link: string, mirror: string, prefix: string)
    requires link == "https://mirror.example/path/to/foo-4.9-gtk-linux-x86.zip"
    requires mirror == "https://mirror.example/path/to/" && prefix == "foo-4.9"
    ensures DirectoryUrl(mirror) && link == mirror + prefix + ReferenceSuffix
  {
  }

  /** The table has six rows whose archive names and artifact ids are pairwise distinct. */
  lemma PackagesDistinct()
    ensures |Packages| == 6 && Packages[ReferenceIndex].zipName == ReferenceSuffix[1..]
    ensures DistinctZipNames(Packages)
    ensures forall i, j :: 0 <= i < j < |Packages| ==>
      Packages[i].zipName != Packages[j].zipName && Packages[i].artifactId != Packages[j].artifactId
  {
  }

  /** No two rows of a table share an archive name. */
  predicate DistinctZipNames(pkgs: seq<PackageInfo>) {
    forall i, j :: 0 <= i < j < |pkgs| ==> pkgs[i].zipName != pkgs[j].zipName
  }

  lemma Cancel(a: string, x: string, y: string, b: string)
    requires a + x + b == a + y + b
    ensures x == y
  {
    assert |x| == |y|;
    assert x == (a + x + b)[|a|..|a| + |x|];
    assert y == (a + y + b)[|a|..|a| + |y|];
  }

  /**
   * `Main.java` lines 97-102: rows with distinct archive names give distinct archive file names, download URLs,
   * checksum URLs and local files, so no two packages share a file.
   */
  lemma TargetsDistinct(r: ReleaseInfo, pkgs: seq<PackageInfo>, i: nat, j: nat)
    requires DistinctZipNames(pkgs) && i < |pkgs| && j < |pkgs| && i != j
    ensures ZipFileName(r, pkgs[i]) != ZipFileName(r, pkgs[j])
    ensures DownloadUrl(r, pkgs[i]) != DownloadUrl(r, pkgs[j])
    ensures ChecksumUrl(r, pkgs[i]) != ChecksumUrl(r, pkgs[j])
    ensures LocalPath(r, pkgs[i]) != LocalPath(r, pkgs[j])
  {
    var zi, zj := pkgs[i].zipName, pkgs[j].zipName;
    assert zi != zj by {
      if i < j { assert pkgs[i].zipName != pkgs[j].zipName; } else { assert pkgs[j].zipName != pkgs[i].zipName; }
    }
    var fi, fj := ZipFileName(r, pkgs[i]), ZipFileName(r, pkgs[j]);
    if fi == fj {
      Cancel(r.releasePrefix + "-", zi, zj, "");
    }
    if ChecksumUrl(r, pkgs[i]) == ChecksumUrl(r, pkgs[j]) {
      Cancel(r.mirrorUrl + "checksum/", fi, fj, ".md5");
    }
    if DownloadUrl(r, pkgs[i]) == DownloadUrl(r, pkgs[j]) {
      Cancel(r.mirrorUrl, fi, fj, "");
    }
    if LocalPath(r, pkgs[i]) == LocalPath(r, pkgs[j]) {
      Cancel(DownloadDir + "/", fi, fj, "");
    }
  }

  /**
   * `Main.java` lines 98-99: the checksum URL is the download URL with `checksum/`
   * inserted after the mirror and `.md5` appended.
   */
  lemma UrlLayout(r: ReleaseInfo, pkg: PackageInfo)
    ensures var d := DownloadUrl(r, pkg);
      ChecksumUrl(r, pkg) == r.mirrorUrl + "checksum/" + d[|r.mirrorUrl|..] + ".md5"
  {
  }
}
