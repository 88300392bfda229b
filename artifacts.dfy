/** The working set of Maven artifacts both entry points build and deploy
    (the jarLibsForDeploy list of Deployer.java and Main.java), the report
    of artifacts without sources, and the deploy loop that stops at the
    first failing Maven run. */
module Artifacts {
  import opened Base
  import opened Text
  import opened Paths
  import opened FileTree
  import opened Io
  import opened Naming

  /** A MavenArtifact: the binary jar and, once attached, its sources jar. */
  datatype Artifact = Artifact(jar: Path, sourcesJar: Option<Path>)

  /** The jarLibsForDeploy list. Its elements are values here: the one
      field the code ever assigns, sourcesJar, is updated through the list. */
  class WorkingSet {
    var artifacts: seq<Artifact>

    constructor ()
      ensures artifacts == []
    {
      artifacts := [];
    }

    /** add(new MavenArtifact(jar)): a new artifact has no sources yet. */
    method Add(jar: Path)
      modifies this
      ensures artifacts == old(artifacts) + [Artifact(jar, None)]
    {
      artifacts := artifacts + [Artifact(jar, None)];
    }

    /** mavenArtifact.sourcesJar = sources, for the `i`-th artifact. */
    method SetSources(i: nat, sources: Path)
      requires i < |artifacts|
      modifies this
      ensures artifacts == old(artifacts)[i := old(artifacts)[i].(sourcesJar := Some(sources))]
    {
      artifacts := artifacts[i := artifacts[i].(sourcesJar := Some(sources))];
    }

    /** clear() */
    method Clear()
      modifies this
      ensures artifacts == []
    {
      artifacts := [];
    }
  }

  /** The walked paths whose file name starts with "gradle-" and ends with
      ".jar", in walk order. */
  function GradleJars(walk: seq<Path>): (r: seq<Path>)
    ensures |r| <= |walk|
    decreases |walk|
  {
    if |walk| == 0 then []
    else (if IsGradleJar(FileName(walk[0])) then [walk[0]] else []) + GradleJars(walk[1..])
  }

  /** A path is selected exactly when the walk visits it and its file name
      is a Gradle jar name. */
  lemma {:induction false} GradleJarsMembers(walk: seq<Path>, p: Path)
    ensures p in GradleJars(walk) <==> p in walk && IsGradleJar(FileName(p))
    decreases |walk|
  {
    if |walk| > 0 {
      GradleJarsMembers(walk[1..], p);
      assert walk == [walk[0]] + walk[1..];
    }
  }

  /** Over a complete walk of `dir`, a path is selected exactly when it
      lies below `dir` and has a Gradle jar name. */
  lemma GradleJarsOfWalk(fs: FS, dir: Path, walk: seq<Path>, p: Path)
    requires IsWalk(fs, dir, walk)
    ensures p in GradleJars(walk) <==> p in Subtree(fs, dir) && IsGradleJar(FileName(p))
  {
    GradleJarsMembers(walk, p);
    assert p in walk <==> p in (set q | q in walk);
  }

  /** Selection keeps the walk order: a path visited after a walk is
      selected after that walk's selection. */
  lemma {:induction false} GradleJarsSnoc(walk: seq<Path>, p: Path)
    ensures GradleJars(walk + [p]) == GradleJars(walk) + (if IsGradleJar(FileName(p)) then [p] else [])
    decreases |walk|
  {
    var last: seq<Path> := if IsGradleJar(FileName(p)) then [p] else [];
    if |walk| > 0 {
      var head: seq<Path> := if IsGradleJar(FileName(walk[0])) then [walk[0]] else [];
      assert (walk + [p])[0] == walk[0];
      assert (walk + [p])[1..] == walk[1..] + [p];
      GradleJarsSnoc(walk[1..], p);
      assert GradleJars(walk + [p]) == head + (GradleJars(walk[1..]) + last);
      assert head + (GradleJars(walk[1..]) + last) == (head + GradleJars(walk[1..])) + last;
    } else {
      assert (walk + [p])[1..] == [];
    }
  }

  /** Fresh artifacts for jars, none with sources. */
  function Unattached(jars: seq<Path>): (r: seq<Artifact>)
    ensures |r| == |jars|
    ensures forall i :: 0 <= i < |jars| ==> r[i] == Artifact(jars[i], None)
  {
    seq(|jars|, i requires 0 <= i < |jars| => Artifact(jars[i], None))
  }

  /** One more jar, one more fresh artifact at the end. */
  lemma UnattachedSnoc(jars: seq<Path>, p: Path)
    ensures Unattached(jars + [p]) == Unattached(jars) + [Artifact(p, None)]
  {
  }

  /** The body of the walk's forEach for path `p`, after the paths `seen`. */
  method CollectOne(list: WorkingSet, p: Path, ghost before: seq<Artifact>, ghost seen: seq<Path>)
    requires list.artifacts == before + Unattached(GradleJars(seen))
    modifies list
    ensures list.artifacts == before + Unattached(GradleJars(seen + [p]))
  {
    ghost var jars := GradleJars(seen);
    GradleJarsSnoc(seen, p);
    if IsGradleJar(FileName(p)) {
      list.Add(p);
      UnattachedSnoc(jars, p);
      assert list.artifacts == before + (Unattached(jars) + [Artifact(p, None)]);
    } else {
      assert jars + [] == jars;
    }
  }

  /** The walk's forEach: every path with a Gradle jar name is added to
      the working set, in walk order. */
  method AddGradleJars(list: WorkingSet, paths: seq<Path>)
    modifies list
    ensures list.artifacts == old(list.artifacts) + Unattached(GradleJars(paths))
  {
    ghost var before := list.artifacts;
    var i := 0;
    while i < |paths|
      invariant 0 <= i <= |paths|
      invariant list.artifacts == before + Unattached(GradleJars(paths[..i]))
    {
      CollectOne(list, paths[i], before, paths[..i]);
      assert paths[..i + 1] == paths[..i] + [paths[i]];
      i := i + 1;
    }
    assert paths[..i] == paths;
  }

  /** Files.walk(gradleLib).forEach(...): every walked path with a Gradle
      jar name is added to the working set, in walk order. */
  method CollectJars(fs: FileSystem, gradleLib: Path, list: WorkingSet) returns (r: Outcome, ghost walk: seq<Path>)
    modifies list
    ensures r == (if gradleLib in fs.nodes then Pass else Fail(NoSuchFile(gradleLib)))
    ensures r.Pass? ==> IsWalk(fs.nodes, gradleLib, walk)
    ensures list.artifacts == if r.Pass? then old(list.artifacts) + Unattached(GradleJars(walk)) else old(list.artifacts)
  {
    var paths;
    r, paths := fs.Walk(gradleLib);
    walk := paths;
    if r.Fail? {
      return;
    }
    AddGradleJars(list, paths);
  }

  /** The jars of the artifacts that have no sources jar, in list order. */
  function WithoutSources(arts: seq<Artifact>): (r: seq<Path>)
    ensures |r| <= |arts|
    decreases |arts|
  {
    if |arts| == 0 then []
    else (if arts[0].sourcesJar.None? then [arts[0].jar] else []) + WithoutSources(arts[1..])
  }

  /** A jar is reported exactly when some artifact of it lacks sources. */
  lemma {:induction false} WithoutSourcesMembers(arts: seq<Artifact>, jar: Path)
    ensures jar in WithoutSources(arts)
        <==> exists i :: 0 <= i < |arts| && arts[i].jar == jar && arts[i].sourcesJar.None?
    decreases |arts|
  {
    if |arts| > 0 {
      WithoutSourcesMembers(arts[1..], jar);
      if exists i :: 0 <= i < |arts| && arts[i].jar == jar && arts[i].sourcesJar.None? {
        var i :| 0 <= i < |arts| && arts[i].jar == jar && arts[i].sourcesJar.None?;
        if i > 0 {
          assert arts[1..][i - 1] == arts[i];
        }
      }
      if exists i :: 0 <= i < |arts[1..]| && arts[1..][i].jar == jar && arts[1..][i].sourcesJar.None? {
        var i :| 0 <= i < |arts[1..]| && arts[1..][i].jar == jar && arts[1..][i].sourcesJar.None?;
        assert arts[i + 1] == arts[1..][i];
      }
    }
  }

  /** When every artifact has sources, nothing is reported. */
  lemma {:induction false} AllAttachedNoReport(arts: seq<Artifact>)
    requires forall i :: 0 <= i < |arts| ==> arts[i].sourcesJar.Some?
    ensures WithoutSources(arts) == []
    decreases |arts|
  {
    if |arts| > 0 {
      AllAttachedNoReport(arts[1..]);
    }
  }

  /** What the run makes visible: a "Missing source artifact" line for a
      jar, or one Maven process started with an argument list. */
  datatype Event = MissingSources(jar: Path) | Invoke(argv: seq<string>)

  /** One report event per jar, in order. */
  function Reports(jars: seq<Path>): (r: seq<Event>)
    ensures |r| == |jars|
    ensures forall i :: 0 <= i < |jars| ==> r[i] == MissingSources(jars[i])
  {
    seq(|jars|, i requires 0 <= i < |jars| => MissingSources(jars[i]))
  }

  /** The loop after postProcess: one report per artifact with no sources
      jar, in list order. */
  method ReportMissing(arts: seq<Artifact>) returns (events: seq<Event>)
    ensures events == Reports(WithoutSources(arts))
  {
    events := [];
    var i := 0;
    while i < |arts|
      invariant 0 <= i <= |arts|
      invariant events + Reports(WithoutSources(arts[i..])) == Reports(WithoutSources(arts))
    {
      assert arts[i..][1..] == arts[i + 1..];
      if arts[i].sourcesJar.None? {
        events := events + [MissingSources(arts[i].jar)];
      }
      i := i + 1;
    }
  }

  /** The process command for one artifact: the mvn launcher followed by
      the deploy-file arguments, with the jar's artifact id, the version,
      packaging "jar" and the absolute jar and sources paths. */
  function Invocation(command: string, version: string, a: Artifact): (r: seq<string>)
    ensures |r| == if a.sourcesJar.Some? then 10 else 9
  {
    [command] + MavenArgv(DeployArtifactId(FileName(a.jar), version), version, "jar", Render(a.jar),
                          if a.sourcesJar.Some? then Some(Render(a.sourcesJar.value)) else None)
  }

  /** `n` runs of `total` are made when every run before the n-th exits
      with 0, and either all runs are made or the n-th exits non-zero. */
  predicate StopsAt(exitStatus: nat -> int, total: nat, n: nat) {
    && n <= total
    && (forall i: nat :: i + 1 < n ==> exitStatus(i) == 0)
    && (n < total ==> n > 0 && exitStatus(n - 1) != 0)
  }

  /** The number of runs made from the i-th on: up to and including the
      first non-zero exit status, or all of them. */
  function RunsMade(exitStatus: nat -> int, total: nat, i: nat): (n: nat)
    requires i <= total
    ensures n <= total
    decreases total - i
  {
    if i == total then total
    else if exitStatus(i) != 0 then i + 1
    else RunsMade(exitStatus, total, i + 1)
  }

  /** RunsMade stops exactly at the first failure. */
  lemma {:induction false} RunsMadeStops(exitStatus: nat -> int, total: nat, i: nat)
    requires i <= total && forall j: nat :: j < i ==> exitStatus(j) == 0
    ensures StopsAt(exitStatus, total, RunsMade(exitStatus, total, i))
    decreases total - i
  {
    if i < total && exitStatus(i) == 0 {
      RunsMadeStops(exitStatus, total, i + 1);
    }
  }

  /** The deploy loop: runs Maven for each artifact in list order and stops
      after the first run whose exit status is not 0. The i-th run exits
      with exitStatus(i). */
  method DeployAll(arts: seq<Artifact>, version: string, command: string, exitStatus: nat -> int)
    returns (calls: seq<seq<string>>)
    ensures |calls| == RunsMade(exitStatus, |arts|, 0) && StopsAt(exitStatus, |arts|, |calls|)
    ensures forall i :: 0 <= i < |calls| ==> calls[i] == Invocation(command, version, arts[i])
  {
    RunsMadeStops(exitStatus, |arts|, 0);
    calls := [];
    var i := 0;
    while i < |arts|
      invariant i == |calls| <= |arts|
      invariant RunsMade(exitStatus, |arts|, i) == RunsMade(exitStatus, |arts|, 0)
      invariant forall j: nat :: j < i ==> exitStatus(j) == 0
      invariant forall j :: 0 <= j < i ==> calls[j] == Invocation(command, version, arts[j])
    {
      calls := calls + [Invocation(command, version, arts[i])];
      if exitStatus(i) != 0 {
        break;
      }
      i := i + 1;
    }
  }
}
