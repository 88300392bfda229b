/** FatJarArtifactDeployer.postProcess: every Gradle jar is unpacked into
    one directory and every sources jar into another, both are packed
    again, and the working set is replaced by the single merged artifact. */
module FatJar {
  import opened Base
  import opened Text
  import opened Paths
  import opened FileTree
  import opened Io
  import opened ArchiveCodec
  import opened Artifacts

  /** The skip predicate for binary jars: the slf4j binding Gradle ships
      would override the consumer's own. */
  const SkipSlf4j: string -> bool := (name: string) => StartsWith(name, "org/slf4j/")

  /** target/gradle-all, where the binary jars are merged. */
  function FatJarDir(target: Path): Path {
    target + ["gradle-all"]
  }

  /** target/gradle-all-sources, where the sources jars are merged. */
  function FatSourcesDir(target: Path): Path {
    target + ["gradle-all-sources"]
  }

  /** The merged binary jar, target/"gradle-all-" + version + ".jar". */
  function FatJarPath(target: Path, version: string): Path {
    Resolve(target, "gradle-all-" + version + ".jar")
  }

  /** The merged sources jar, target/"gradle-all-" + version + "-sources.jar". */
  function FatSourcesJarPath(target: Path, version: string): Path {
    Resolve(target, "gradle-all-" + version + "-sources.jar")
  }

  /** One turn of the merge loop: the jar is unpacked into the binary
      directory without its slf4j entries, then its sources jar, if any,
      into the sources directory. */
  function MergeStep(fs: FS, fatDir: Path, fatSourcesDir: Path, a: Artifact): Result<FS> {
    var fs1 :- UnzipFile(fs, a.jar, fatDir, SkipSlf4j);
    if a.sourcesJar.Some? then UnzipFile(fs1, a.sourcesJar.value, fatSourcesDir, AcceptAll) else Ok(fs1)
  }

  /** The merge loop over the working set, in list order. */
  function Merged(fs: FS, fatDir: Path, fatSourcesDir: Path, arts: seq<Artifact>): Result<FS>
    decreases |arts|
  {
    if |arts| == 0 then Ok(fs)
    else
      var fs1 :- MergeStep(fs, fatDir, fatSourcesDir, arts[0]);
      Merged(fs1, fatDir, fatSourcesDir, arts[1..])
  }

  /** The whole hook: reset both directories, merge, pack both; the walks
      are those the two zipDirectory calls make. */
  function PostProcessResult(fs: FS, target: Path, arts: seq<Artifact>, version: string,
                             walk: seq<Path>, sourcesWalk: seq<Path>): Result<FS> {
    var fs1 :- Recreated(fs, FatJarDir(target));
    var fs2 :- Recreated(fs1, FatSourcesDir(target));
    var fs3 :- Merged(fs2, FatJarDir(target), FatSourcesDir(target), arts);
    var fs4 :- ZipDirectoryResult(fs3, FatJarPath(target, version), FatJarDir(target), walk);
    ZipDirectoryResult(fs4, FatSourcesJarPath(target, version), FatSourcesDir(target), sourcesWalk)
  }

  /** The walks the hook's two zipDirectory calls report are walks of the
      directories they pack, for every call the hook reaches. */
  predicate Walked(fs: FS, target: Path, arts: seq<Artifact>, version: string,
                   walk: seq<Path>, sourcesWalk: seq<Path>) {
    var fs1 := Recreated(fs, FatJarDir(target));
    var fs2 := if fs1.Ok? then Recreated(fs1.value, FatSourcesDir(target)) else fs1;
    var fs3 := if fs2.Ok? then Merged(fs2.value, FatJarDir(target), FatSourcesDir(target), arts) else fs2;
    fs3.Ok? ==>
      && ZipWalk(fs3.value, FatJarPath(target, version), FatJarDir(target), walk)
      && var fs4 := ZipDirectoryResult(fs3.value, FatJarPath(target, version), FatJarDir(target), walk);
         fs4.Ok? ==> ZipWalk(fs4.value, FatSourcesJarPath(target, version), FatSourcesDir(target), sourcesWalk)
  }

  /** The merge loop. */
  method Merge(fs: FileSystem, fatDir: Path, fatSourcesDir: Path, arts: seq<Artifact>) returns (r: Outcome)
    modifies fs
    ensures r == StatusOf(Merged(old(fs.nodes), fatDir, fatSourcesDir, arts))
    ensures r.Pass? ==> fs.nodes == Merged(old(fs.nodes), fatDir, fatSourcesDir, arts).value
  {
    var i := 0;
    while i < |arts|
      invariant 0 <= i <= |arts|
      invariant Merged(old(fs.nodes), fatDir, fatSourcesDir, arts) == Merged(fs.nodes, fatDir, fatSourcesDir, arts[i..])
    {
      assert arts[i..][1..] == arts[i + 1..];
      ghost var before := fs.nodes;
      r := Unzip(fs, arts[i].jar, fatDir, SkipSlf4j);
      if r.Fail? {
        return;
      }
      if arts[i].sourcesJar.Some? {
        r := Unzip(fs, arts[i].sourcesJar.value, fatSourcesDir, AcceptAll);
        if r.Fail? {
          return;
        }
      }
      assert fs.nodes == MergeStep(before, fatDir, fatSourcesDir, arts[i]).value;
      i := i + 1;
    }
    r := Pass;
  }

  /** postProcess of the fat-jar deployer. On success the working set is
      exactly the merged jar with the merged sources jar; on failure the
      exception leaves the list as it was. */
  method PostProcess(fs: FileSystem, target: Path, list: WorkingSet, version: string)
    returns (r: Outcome, ghost walk: seq<Path>, ghost sourcesWalk: seq<Path>)
    modifies fs, list
    ensures r == StatusOf(PostProcessResult(old(fs.nodes), target, old(list.artifacts), version, walk, sourcesWalk))
    ensures r.Pass? ==> fs.nodes == PostProcessResult(old(fs.nodes), target, old(list.artifacts), version, walk, sourcesWalk).value
    ensures list.artifacts == if r.Pass? then [Artifact(FatJarPath(target, version), Some(FatSourcesJarPath(target, version)))]
                              else old(list.artifacts)
    ensures Walked(old(fs.nodes), target, old(list.artifacts), version, walk, sourcesWalk)
  {
    walk, sourcesWalk := [], [];
    var fatJarDir := FatJarDir(target);
    var fatJarSourceDir := FatSourcesDir(target);
    :- fs.Recreate(fatJarDir);
    :- fs.Recreate(fatJarSourceDir);
    :- Merge(fs, fatJarDir, fatJarSourceDir, list.artifacts);
    var fatJar := FatJarPath(target, version);
    var fatSourceJar := FatSourcesJarPath(target, version);
    r, walk := ZipDirectory(fs, fatJar, fatJarDir);
    if r.Fail? {
      return;
    }
    r, sourcesWalk := ZipDirectory(fs, fatSourceJar, fatJarSourceDir);
    if r.Fail? {
      return;
    }
    list.Clear();
    list.Add(fatJar);
    list.SetSources(0, fatSourceJar);
  }
}
