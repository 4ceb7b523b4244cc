/** The Paper-specific logic of src/mcserver/paper.py with the HTTP requests and
    file access taken out: the version index and the latest build arrive as
    values, and the launch script template arrives as a string. */
module Paper {
  import opened Results
  import opened Strings
  import Util
  import Numerals

  /** The support status `get_latest_version` looks for. */
  const Supported: string := "SUPPORTED"

  /** The token of the launch script template that stands for the jar file name. */
  const Placeholder: string := "$JARNAME$"

  /** One entry of the version index: `version.id` and `version.support.status`. */
  datatype VersionInfo = VersionInfo(id: string, status: string)

  /** The latest build as the build endpoint reports it: the jar's file name and
      its download URL (`downloads["server:default"]`). */
  datatype Build = Build(name: string, url: string)

  /** What `get_latest_jarname` returns: a jar name, and a download URL only when
      that jar supersedes the local one. */
  datatype Choice = Choice(name: string, url: Option<string>)

  datatype PaperError =
    | NoSupportedVersion
      /** Unpacking `old_version, old_build = ...` saw a tuple of the wrong length. */
    | CannotUnpack(jarName: string, parts: nat)
    | BadVersion(version: string, cause: Util.VersionError)

  // ---------------------------------------------------------------------------
  // get_latest_version
  // ---------------------------------------------------------------------------

  /** The id of the first entry of the index whose status is `SUPPORTED`; fails
      when there is none. */
  method LatestVersion(versions: seq<VersionInfo>) returns (r: Result<string, PaperError>)
    ensures r.Success? ==>
      exists i :: 0 <= i < |versions| && versions[i].status == Supported && versions[i].id == r.value
        && forall j :: 0 <= j < i ==> versions[j].status != Supported
    ensures r.Failure? <==> forall i :: 0 <= i < |versions| ==> versions[i].status != Supported
    ensures r.Failure? ==> r.error == NoSupportedVersion
  {
    for k := 0 to |versions|
      invariant forall j :: 0 <= j < k ==> versions[j].status != Supported
    {
      if versions[k].status != Supported {
        continue;
      }
      return Success(versions[k].id);
    }
    return Failure(NoSupportedVersion);
  }

  // ---------------------------------------------------------------------------
  // get_jar_version_and_build
  // ---------------------------------------------------------------------------

  /** `tuple(name.rsplit(".", 1)[0].split("-")[1:])`: the dash-separated fields
      of the name without its extension, the first field dropped: one field per
      dash of the name without its extension, none of them holding a dash.
      Nothing checks that there are exactly two. */
  function JarVersionAndBuild(name: string): (fields: seq<string>)
    ensures |fields| == multiset(BeforeLast(name, '.'))['-']
    ensures forall i :: 0 <= i < |fields| ==> '-' !in fields[i]
  {
    var parts := Split(BeforeLast(name, '.'), '-');
    SplitPiecesLackSeparator(BeforeLast(name, '.'), '-');
    SplitCount(BeforeLast(name, '.'), '-');
    parts[1..]
  }

  /** `"<prefix>-<version>-<build>.<ext>"` parses back to `[version, build]` when
      the three fields hold no dash and the extension holds no dot; the version
      may hold dots. */
  lemma JarNameRoundTrip(prefix: string, version: string, build: string, ext: string)
    requires '-' !in prefix && '-' !in version && '-' !in build
    requires '.' !in ext
    ensures JarVersionAndBuild(prefix + "-" + version + "-" + build + "." + ext) == [version, build]
  {
    var stem := prefix + "-" + version + "-" + build;
    assert prefix + "-" + version + "-" + build + "." + ext == stem + ['.'] + ext;
    BeforeLastOfSuffix(stem, '.', ext);
    SplitWithoutSeparator(prefix, '-');
    SplitWithoutSeparator(version, '-');
    SplitWithoutSeparator(build, '-');
    SplitConcat(prefix, version, '-');
    SplitConcat(prefix + "-" + version, build, '-');
    assert prefix + "-" + version == prefix + ['-'] + version;
    assert stem == (prefix + "-" + version) + ['-'] + build;
    assert Split(stem, '-') == [prefix, version, build];
  }

  // ---------------------------------------------------------------------------
  // get_latest_jarname
  // ---------------------------------------------------------------------------

  /** A jar name the update decision can read: exactly two fields, the first a
      version `comparable_version` accepts. */
  predicate WellFormedJar(name: string) {
    var p := JarVersionAndBuild(name);
    |p| == 2 && Util.WellFormed(p[0])
  }

  function JarVersion(name: string): Util.Version
    requires WellFormedJar(name)
  {
    Util.ParseVersion(JarVersionAndBuild(name)[0]).value
  }

  function JarBuild(name: string): string
    requires WellFormedJar(name)
  {
    JarVersionAndBuild(name)[1]
  }

  /** `get_latest_jarname(old_name)` with the latest build passed in. The remote
      jar supersedes the local one when its version key is strictly greater AND
      its build string is strictly greater as a string. The failures come in the
      Python evaluation order: both unpackings, then the new key, then the old. */
  function LatestJarName(oldName: string, latest: Build): (r: Result<Choice, PaperError>)
    ensures r.Success? <==> WellFormedJar(oldName) && WellFormedJar(latest.name)
    ensures r.Success? && r.value.url.Some? ==> r.value == Choice(latest.name, Some(latest.url))
    ensures r.Success? && r.value.url.None? ==> r.value.name == oldName
  {
    var oldParts := JarVersionAndBuild(oldName);
    if |oldParts| != 2 then Failure(CannotUnpack(oldName, |oldParts|)) else
    var newParts := JarVersionAndBuild(latest.name);
    if |newParts| != 2 then Failure(CannotUnpack(latest.name, |newParts|)) else
    var newKey := Util.ComparableVersion(newParts[0]);
    if newKey.Failure? then Failure(BadVersion(newParts[0], newKey.error)) else
    var oldKey := Util.ComparableVersion(oldParts[0]);
    if oldKey.Failure? then Failure(BadVersion(oldParts[0], oldKey.error)) else
    if Less(oldKey.value, newKey.value) && Less(oldParts[1], newParts[1]) then
      Success(Choice(latest.name, Some(latest.url)))
    else
      Success(Choice(oldName, None))
  }

  /** The update decision in terms of what the names mean: with components below
      10000, a URL comes back exactly when the remote version is newer in
      (major, minor, patch) order and the remote build is greater as a string. */
  lemma UpdateIffNewer(oldName: string, latest: Build)
    requires WellFormedJar(oldName) && WellFormedJar(latest.name)
    requires Util.Bounded(JarVersion(oldName)) && Util.Bounded(JarVersion(latest.name))
    ensures LatestJarName(oldName, latest).Success?
    ensures LatestJarName(oldName, latest).value.url.Some? <==>
      && Util.VersionLess(JarVersion(oldName), JarVersion(latest.name))
      && Less(JarBuild(oldName), JarBuild(latest.name))
  {
    Util.ComparableVersionOrder(JarVersionAndBuild(oldName)[0], JarVersionAndBuild(latest.name)[0]);
  }

  /** The version comparison is strict: a remote jar of the same version never
      replaces the local one, whatever its build. */
  lemma SameVersionNeverUpdates(oldName: string, latest: Build)
    requires WellFormedJar(oldName) && WellFormedJar(latest.name)
    requires JarVersion(oldName) == JarVersion(latest.name)
    ensures LatestJarName(oldName, latest) == Success(Choice(oldName, None))
  {
    LessIrreflexive(Util.Key(JarVersion(oldName)));
  }

  /** Asking about the very jar that is already installed reports no update. */
  lemma IdenticalJarNeverUpdates(name: string, url: string)
    requires WellFormedJar(name)
    ensures LatestJarName(name, Build(name, url)) == Success(Choice(name, None))
  {
    SameVersionNeverUpdates(name, Build(name, url));
  }

  /** An older remote version never replaces the local jar, whatever the builds. */
  lemma OlderVersionNeverUpdates(oldName: string, latest: Build)
    requires WellFormedJar(oldName) && WellFormedJar(latest.name)
    requires Util.Bounded(JarVersion(oldName)) && Util.Bounded(JarVersion(latest.name))
    requires Util.VersionLess(JarVersion(latest.name), JarVersion(oldName))
    ensures LatestJarName(oldName, latest) == Success(Choice(oldName, None))
  {
    UpdateIffNewer(oldName, latest);
  }

  /** The file name the build endpoint gives a Paper jar:
      `paper-<major>.<minor>.<patch>-<build>.jar`. */
  function PaperJarName(version: Util.Version, build: string): string {
    "paper" + "-" + Util.Render(version) + "-" + build + "." + "jar"
  }

  lemma RenderHasNoDash(version: Util.Version)
    ensures '-' !in Util.Render(version)
  {
    var m, n, p := Numerals.Decimal(version.major), Numerals.Decimal(version.minor), Numerals.Decimal(version.patch);
    Numerals.NumeralExcludes(m, '-');
    Numerals.NumeralExcludes(n, '-');
    Numerals.NumeralExcludes(p, '-');
    assert Util.Render(version) == m + "." + n + "." + p;
  }

  /** Paper jar names are read back as the version and build they were made from. */
  lemma PaperJarNameParses(version: Util.Version, build: string)
    requires '-' !in build
    ensures WellFormedJar(PaperJarName(version, build))
    ensures JarVersion(PaperJarName(version, build)) == version
    ensures JarBuild(PaperJarName(version, build)) == build
  {
    var v := Util.Render(version);
    var name := PaperJarName(version, build);
    RenderHasNoDash(version);
    JarNameRoundTrip("paper", v, build, "jar");
    assert JarVersionAndBuild(name) == [v, build];
    Util.ParseRender(version);
    assert Util.WellFormed(v);
  }

  /** Between Paper jar names, a strictly newer version together with a build
      that sorts after the local one is an update, and its URL comes back. */
  lemma NewerPaperJarSupersedes(local: Util.Version, localBuild: string,
                                remote: Util.Version, remoteBuild: string, url: string)
    requires Util.Bounded(local) && Util.Bounded(remote)
    requires '-' !in localBuild && '-' !in remoteBuild
    requires Util.VersionLess(local, remote) && Less(localBuild, remoteBuild)
    ensures LatestJarName(PaperJarName(local, localBuild), Build(PaperJarName(remote, remoteBuild), url))
         == Success(Choice(PaperJarName(remote, remoteBuild), Some(url)))
  {
    PaperJarNameParses(local, localBuild);
    PaperJarNameParses(remote, remoteBuild);
    UpdateIffNewer(PaperJarName(local, localBuild), Build(PaperJarName(remote, remoteBuild), url));
  }

  /** Against the name `paper-0.0.0-0.jar`, any remote jar of a non-zero version
      whose build sorts after `"0"` (for example `paper-1.20.1-10.jar`) is an
      update and its URL comes back. */
  lemma ZeroVersionJarIsSuperseded(version: Util.Version, build: string, url: string)
    requires Util.Bounded(version) && version != Util.Version(0, 0, 0)
    requires '-' !in build && Less("0", build)
    ensures LatestJarName(PaperJarName(Util.Version(0, 0, 0), "0"), Build(PaperJarName(version, build), url))
         == Success(Choice(PaperJarName(version, build), Some(url)))
  {
    NewerPaperJarSupersedes(Util.Version(0, 0, 0), "0", version, build, url);
  }

  /** Builds compare as text: going from build `9` to build `10` is never an
      update, however much newer the remote version is, because `"10" < "9"` as
      strings. */
  lemma TextualBuildOrderBlocksUpdate(local: Util.Version, remote: Util.Version, url: string)
    ensures LatestJarName(PaperJarName(local, "9"), Build(PaperJarName(remote, "10"), url))
         == Success(Choice(PaperJarName(local, "9"), None))
  {
    PaperJarNameParses(local, "9");
    PaperJarNameParses(remote, "10");
    assert Less("10", "9");
    LessTrichotomy("9", "10");
    BuildNotGreaterNeverUpdates(PaperJarName(local, "9"), Build(PaperJarName(remote, "10"), url));
  }

  /** Whatever the versions, a remote build that is not greater as a string than
      the local one never replaces it. */
  lemma BuildNotGreaterNeverUpdates(oldName: string, latest: Build)
    requires WellFormedJar(oldName) && WellFormedJar(latest.name)
    requires !Less(JarBuild(oldName), JarBuild(latest.name))
    ensures LatestJarName(oldName, latest) == Success(Choice(oldName, None))
  {
  }

  // ---------------------------------------------------------------------------
  // startup_sh
  // ---------------------------------------------------------------------------

  /** `script.replace("$JARNAME$", server_jar.name)`: the launch script text with
      every placeholder replaced by the jar's file name. A template without the
      placeholder is written out unchanged. */
  function StartupScript(template: string, jarName: string): (script: string)
    ensures (forall i :: !MatchAt(template, Placeholder, i)) ==> script == template
  {
    ReplaceWithoutMatch(template, Placeholder, jarName);
    Replace(template, Placeholder, jarName)
  }

  /** The leftmost placeholder becomes the jar name and the rest of the template
      is processed the same way. */
  lemma ScriptReplacesFirst(before: string, after: string, jarName: string)
    requires forall i :: 0 <= i < |before| ==> !MatchAt(before + Placeholder + after, Placeholder, i)
    ensures StartupScript(before + Placeholder + after, jarName)
         == before + jarName + StartupScript(after, jarName)
  {
    ReplaceFirstMatch(before, after, Placeholder, jarName);
  }

  /** A template with a single placeholder gets exactly that one spot filled in. */
  lemma ScriptSinglePlaceholder(before: string, after: string, jarName: string)
    requires forall i :: 0 <= i < |before| ==> !MatchAt(before + Placeholder + after, Placeholder, i)
    requires forall i :: !MatchAt(after, Placeholder, i)
    ensures StartupScript(before + Placeholder + after, jarName) == before + jarName + after
  {
    ScriptReplacesFirst(before, after, jarName);
  }
}
