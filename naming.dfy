/** The names the deployer derives with String.replace, and the Maven
    command line it builds for each artifact (Deployer.java and the
    identical code in Main.java). */
module Naming {
  import opened Base
  import opened Text
  import opened Paths

  const GroupId := "consulo.internal.gradle.plugin"
  const RepositoryId := "consulo"
  const RepositoryUrl := "https://maven.consulo.io/" + "repository/snapshots/"

  /** Path.getFileName().toString(): the last component. */
  function FileName(p: Path): string {
    if |p| == 0 then "" else p[|p| - 1]
  }

  /** The version: the distribution directory's name with every
      occurrence of "gradle-" removed. */
  function Version(distrName: string): (v: string)
    ensures !Contains(distrName, "gradle-") ==> v == distrName
  {
    Replace(distrName, "gradle-", "")
  }

  /** A distribution directory named "gradle-" + v yields v, when v itself
      holds no "gradle-". */
  lemma VersionOf(v: string)
    requires !Contains(v, "gradle-")
    ensures Version("gradle-" + v) == v
  {
    ReplaceLeading("gradle-", v, "");
  }

  /** A file of the lib walk that becomes an artifact. */
  predicate IsGradleJar(fileName: string) {
    StartsWith(fileName, "gradle-") && EndsWith(fileName, ".jar")
  }

  /** The jar name Gradle gives component `c` of version `v`. */
  function JarName(c: string, v: string): string {
    "gradle-" + c + "-" + v + ".jar"
  }

  /** The component id: the jar name with every "gradle-", every ".jar"
      and every "-" + version removed, in that order. */
  function ComponentId(fileName: string, version: string): string {
    Replace(Replace(Replace(fileName, "gradle-", ""), ".jar", ""), "-" + version, "")
  }

  /** The name of the sources jar packed for component `id`. */
  function SourcesJarName(id: string, version: string): string {
    "gradle-" + id + "-" + version + "-sources.jar"
  }

  /** The Maven artifact id: the jar name with every "-" + version + ".jar"
      removed. */
  function DeployArtifactId(fileName: string, version: string): string {
    Replace(fileName, "-" + version + ".jar", "")
  }

  /** A jar name is "gradle-" followed by the rest of the name. */
  lemma JarNameParts(c: string, v: string)
    ensures JarName(c, v) == "gradle-" + (c + "-" + v + ".jar")
  {
  }

  /** Every Gradle jar name is a gradle jar of the lib walk. */
  lemma JarNameIsGradleJar(c: string, v: string)
    ensures IsGradleJar(JarName(c, v))
  {
    var n := JarName(c, v);
    assert n == "gradle-" + (c + "-" + v + ".jar");
    assert n[..7] == "gradle-";
    assert n[|n| - 4..] == ".jar";
  }

  /** The component id recovers `c` from its jar name, when the stripped
      parts occur nowhere else: no "gradle-" after the leading one, ".jar"
      only at the end, and "-" + v only right before ".jar". */
  lemma ComponentIdOf(c: string, v: string)
    requires !Contains(c + "-" + v + ".jar", "gradle-")
    requires OccursOnlyAtEnd(c + "-" + v + ".jar", ".jar")
    requires OccursOnlyAtEnd(c + "-" + v, "-" + v)
    ensures ComponentId(JarName(c, v), v) == c
  {
    StripPrefixAndExtension(c, v);
    assert c + "-" + v == c + ("-" + v);
    StripTrailing(c, "-" + v);
  }

  /** Helper for ComponentIdOf: the first two removals leave
      c + "-" + v. */
  lemma StripPrefixAndExtension(c: string, v: string)
    requires !Contains(c + "-" + v + ".jar", "gradle-")
    requires OccursOnlyAtEnd(c + "-" + v + ".jar", ".jar")
    ensures Replace(Replace(JarName(c, v), "gradle-", ""), ".jar", "") == c + "-" + v
  {
    var stem := c + "-" + v;
    JarNameParts(c, v);
    StripLeading("gradle-", stem + ".jar");
    StripTrailing(stem, ".jar");
  }

  /** Under the same conditions the sources jar is named after the binary
      jar, with ".jar" turned into "-sources.jar". */
  lemma SourcesJarBesideJar(c: string, v: string)
    requires !Contains(c + "-" + v + ".jar", "gradle-")
    requires OccursOnlyAtEnd(c + "-" + v + ".jar", ".jar")
    requires OccursOnlyAtEnd(c + "-" + v, "-" + v)
    ensures var n := JarName(c, v); SourcesJarName(ComponentId(n, v), v) == n[..|n| - 4] + "-sources.jar"
  {
    ComponentIdOf(c, v);
    var n := JarName(c, v);
    assert n[..|n| - 4] == "gradle-" + c + "-" + v;
  }

  /** The artifact id of a jar whose "-" + v + ".jar" occurs only at its
      end is the jar name without that suffix. */
  lemma DeployArtifactIdOf(stem: string, v: string)
    requires OccursOnlyAtEnd(stem + "-" + v + ".jar", "-" + v + ".jar")
    ensures DeployArtifactId(stem + "-" + v + ".jar", v) == stem
  {
    assert stem + "-" + v + ".jar" == stem + ("-" + v + ".jar");
    StripTrailing(stem, "-" + v + ".jar");
  }

  /** A Gradle component jar deploys as "gradle-" + c. */
  lemma DeployArtifactIdOfJar(c: string, v: string)
    requires OccursOnlyAtEnd(JarName(c, v), "-" + v + ".jar")
    ensures DeployArtifactId(JarName(c, v), v) == "gradle-" + c
  {
    assert JarName(c, v) == ("gradle-" + c) + "-" + v + ".jar";
    DeployArtifactIdOf("gradle-" + c, v);
  }

  /** A "-D" flag of the deploy-file goal and the value appended after it. */
  datatype Flag = Flag(name: string, value: string)

  /** The flags runAtMaven appends, in order; the sources flag only when a
      sources path is given. */
  function DeployFlags(artifactId: string, version: string, packaging: string, file: string, sources: Option<string>): (r: seq<Flag>)
    ensures |r| == if sources.Some? then 8 else 7
  {
    [Flag("-DgroupId=", GroupId),
     Flag("-DartifactId=", artifactId),
     Flag("-Dversion=", version),
     Flag("-Dpackaging=", packaging),
     Flag("-DrepositoryId=", RepositoryId),
     Flag("-Durl=", RepositoryUrl),
     Flag("-Dfile=", file)]
    + (if sources.Some? then [Flag("-Dsources=", sources.value)] else [])
  }

  /** The StringBuilder after appending " " + name and then the value of
      each flag to `line`. */
  function Appended(line: string, flags: seq<Flag>): string
    decreases |flags|
  {
    if |flags| == 0 then line
    else Appended(line + " " + flags[0].name + flags[0].value, flags[1..])
  }

  /** runAtMaven: the deploy-file goal followed by its flags. */
  function MavenArgs(artifactId: string, version: string, packaging: string, file: string, sources: Option<string>): string {
    Appended("deploy:deploy-file", DeployFlags(artifactId, version, packaging, file, sources))
  }

  /** One argument per flag: its name immediately followed by its value. */
  function Tokens(flags: seq<Flag>): (r: seq<string>)
    ensures |r| == |flags|
    ensures forall i :: 0 <= i < |flags| ==> r[i] == flags[i].name + flags[i].value
  {
    seq(|flags|, i requires 0 <= i < |flags| => flags[i].name + flags[i].value)
  }

  /** The arguments runAtMaven means to pass: the goal, then one token per
      flag. */
  function MavenArgv(artifactId: string, version: string, packaging: string, file: string, sources: Option<string>): (r: seq<string>)
    ensures |r| == if sources.Some? then 9 else 8
  {
    ["deploy:deploy-file"] + Tokens(DeployFlags(artifactId, version, packaging, file, sources))
  }

  /** Joining with one more part at the end. */
  lemma {:induction false} JoinSnoc(parts: seq<string>, last: string, sep: char)
    requires |parts| > 0
    ensures JoinWith(parts + [last], sep) == JoinWith(parts, sep) + [sep] + last
    decreases |parts|
  {
    var all := parts + [last];
    assert all[1..] == parts[1..] + [last];
    if |parts| > 1 {
      JoinSnoc(parts[1..], last, sep);
    }
  }

  /** Appending flags to a line that joins `words` gives the line that
      joins `words` followed by the flags' tokens. */
  lemma {:induction false} AppendedJoins(words: seq<string>, flags: seq<Flag>)
    requires |words| > 0
    ensures Appended(JoinWith(words, ' '), flags) == JoinWith(words + Tokens(flags), ' ')
    decreases |flags|
  {
    if |flags| == 0 {
      assert words + Tokens(flags) == words;
    } else {
      var t := flags[0].name + flags[0].value;
      JoinSnoc(words, t, ' ');
      assert JoinWith(words, ' ') + " " + flags[0].name + flags[0].value == JoinWith(words, ' ') + [' '] + t;
      AppendedJoins(words + [t], flags[1..]);
      assert (words + [t]) + Tokens(flags[1..]) == words + Tokens(flags);
    }
  }

  /** The command-line string is exactly the argument tokens joined by
      single spaces, in the fixed order, with the sources flag last. */
  lemma MavenArgsTokens(artifactId: string, version: string, packaging: string, file: string, sources: Option<string>)
    ensures MavenArgs(artifactId, version, packaging, file, sources)
         == JoinWith(MavenArgv(artifactId, version, packaging, file, sources), ' ')
  {
    var goal := "deploy:deploy-file";
    assert JoinWith([goal], ' ') == goal;
    AppendedJoins([goal], DeployFlags(artifactId, version, packaging, file, sources));
  }

  /** The sources flag is present exactly when a sources path is given,
      and then it is the last token. */
  lemma SourcesFlagIff(artifactId: string, version: string, packaging: string, file: string, sources: Option<string>)
    ensures var argv := MavenArgv(artifactId, version, packaging, file, sources);
      && ((exists i :: 0 <= i < |argv| && StartsWith(argv[i], "-Dsources=")) <==> sources.Some?)
      && (sources.Some? ==> argv[|argv| - 1] == "-Dsources=" + sources.value)
  {
    var argv := MavenArgv(artifactId, version, packaging, file, sources);
    forall i | 0 <= i < 8
      ensures !StartsWith(argv[i], "-Dsources=")
    {
      assert |argv[i]| > 2 && argv[i][2] != 's';
    }
    if sources.Some? {
      assert argv[8][..10] == "-Dsources=";
    }
  }

  /** What Deployer hands to the process as written: the command-line
      string split at every single space. */
  function SplitArgs(artifactId: string, version: string, packaging: string, file: string, sources: Option<string>): seq<string> {
    SplitOnSpace(MavenArgs(artifactId, version, packaging, file, sources))
  }

  /** The fixed values hold no space. */
  lemma ConstantsPlain()
    ensures ' ' !in GroupId && ' ' !in RepositoryId && ' ' !in RepositoryUrl
  {
    assert ' ' !in "https://maven.consulo.io/";
    assert ' ' !in "repository/snapshots/";
  }

  /** No flag name or fixed value holds a space, and no name is empty. */
  predicate PlainFlag(f: Flag) {
    ' ' !in f.name && ' ' !in f.value && f.name != ""
  }

  /** No flag name holds a space. */
  lemma NamesPlain()
    ensures ' ' !in "-DgroupId=" && ' ' !in "-DartifactId=" && ' ' !in "-Dversion=" && ' ' !in "-Dpackaging="
    ensures ' ' !in "-DrepositoryId=" && ' ' !in "-Durl=" && ' ' !in "-Dfile=" && ' ' !in "-Dsources="
  {
  }

  /** Every flag is plain when the values given hold no space. */
  lemma FlagsPlain(artifactId: string, version: string, packaging: string, file: string, sources: Option<string>)
    requires ' ' !in artifactId && ' ' !in version && ' ' !in packaging && ' ' !in file
    requires sources.Some? ==> ' ' !in sources.value
    ensures forall f <- DeployFlags(artifactId, version, packaging, file, sources) :: PlainFlag(f)
  {
    ConstantsPlain();
    NamesPlain();
    assert PlainFlag(Flag("-DgroupId=", GroupId));
    assert PlainFlag(Flag("-DartifactId=", artifactId));
    assert PlainFlag(Flag("-Dversion=", version));
    assert PlainFlag(Flag("-Dpackaging=", packaging));
    assert PlainFlag(Flag("-DrepositoryId=", RepositoryId));
    assert PlainFlag(Flag("-Durl=", RepositoryUrl));
    assert PlainFlag(Flag("-Dfile=", file));
    if sources.Some? {
      assert PlainFlag(Flag("-Dsources=", sources.value));
    }
  }

  /** When no value holds a space, splitting recovers the intended tokens. */
  lemma SplitArgsWithoutSpaces(artifactId: string, version: string, packaging: string, file: string, sources: Option<string>)
    requires ' ' !in artifactId && ' ' !in version && ' ' !in packaging && ' ' !in file
    requires sources.Some? ==> ' ' !in sources.value
    ensures SplitArgs(artifactId, version, packaging, file, sources) == MavenArgv(artifactId, version, packaging, file, sources)
  {
    var flags := DeployFlags(artifactId, version, packaging, file, sources);
    var argv := MavenArgv(artifactId, version, packaging, file, sources);
    MavenArgsTokens(artifactId, version, packaging, file, sources);
    FlagsPlain(artifactId, version, packaging, file, sources);
    forall i | 0 <= i < |argv|
      ensures ' ' !in argv[i] && argv[i] != ""
    {
      if i > 0 {
        assert PlainFlag(flags[i - 1]);
        assert argv[i] == flags[i - 1].name + flags[i - 1].value;
      }
    }
    SplitOnSpaceOfJoin(argv);
  }

  /** A jar path with a space (a working directory such as "/home/a b")
      is torn into several arguments: the process never receives the
      intended "-Dfile=" token. */
  lemma SplitArgsBreaksSpacedFile(artifactId: string, version: string, packaging: string, file: string, sources: Option<string>)
    requires ' ' in file
    ensures SplitArgs(artifactId, version, packaging, file, sources) != MavenArgv(artifactId, version, packaging, file, sources)
  {
    var argv := MavenArgv(artifactId, version, packaging, file, sources);
    var i :| 0 <= i < |file| && file[i] == ' ';
    assert argv[7] == "-Dfile=" + file;
    assert argv[7][7 + i] == ' ';
  }

  /** The mvn launcher below the Maven home, with the platform's
      separator and, on Windows, the ".cmd" extension. */
  function CommandFile(mavenHome: string, windows: bool): string {
    var sep := if windows then "\\" else "/";
    mavenHome + sep + "bin" + sep + "mvn" + (if windows then ".cmd" else "")
  }

  /** Lower-casing of the ASCII letters. */
  function LowerAscii(s: string): (r: string)
    ensures |r| == |s|
    ensures forall i :: 0 <= i < |s| ==> r[i] == if 'A' <= s[i] <= 'Z' then (s[i] as int + 32) as char else s[i]
  {
    seq(|s|, i requires 0 <= i < |s| => if 'A' <= s[i] <= 'Z' then (s[i] as int + 32) as char else s[i])
  }

  /** os.name, lower-cased, names Windows. */
  predicate IsWindows(osName: string) {
    Contains(LowerAscii(osName), "windows")
  }

  /** MAVEN_HOME, or else the first program argument. */
  function MavenHome(env: Option<string>, args: seq<string>): (r: Result<string>)
    ensures r.Ok? <==> env.Some? || |args| > 0
    ensures r.Ok? ==> r.value == if env.Some? then env.value else args[0]
  {
    if env.Some? then Ok(env.value)
    else if |args| == 0 then Err(MissingArgument)
    else Ok(args[0])
  }
}
