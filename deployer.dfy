/** Deployer.run: prepare the build directory, unpack the downloaded Gradle
    distribution, collect its jars, attach sources jars packed from its
    src directory, let the post-processing hook rework the list, report
    the jars without sources, and deploy the list with Maven. */
module Deployer {
  import opened Base
  import opened Text
  import opened Paths
  import opened FileTree
  import opened Archive
  import opened Io
  import opened ArchiveCodec
  import opened Naming
  import opened Artifacts
  import FatJar
  import ArchiveLaws

  /** The deployer subclasses, each choosing a post-processing hook. */
  datatype Strategy = Independent | FatJarMerge

  /** Entries of the distribution whose name mentions "examples" are not
      extracted. */
  const SkipExamples: string -> bool := (name: string) => Contains(name, "examples")

  /** target/extract, where the distribution is unpacked. */
  function ExtractDir(target: Path): Path {
    target + ["extract"]
  }

  /** target/gradle-distribution.zip, where the download is stored. */
  function DistributionZip(target: Path): Path {
    target + ["gradle-distribution.zip"]
  }

  /** cleanAndDownloadGradle up to the extraction: a fresh build directory
      holding the downloaded archive and an empty extract directory. */
  function Prepared(fs: FS, target: Path, download: seq<byte>): Result<FS> {
    var fs1 :- Recreated(fs, target);
    var fs2 :- CopyIn(fs1, DistributionZip(target), download);
    CreateDirectory(fs2, ExtractDir(target))
  }

  /** cleanAndDownloadGradle: `download` is what the distribution URL
      serves. */
  function CleanAndDownloadResult(fs: FS, target: Path, download: seq<byte>): Result<FS> {
    var fs1 :- Prepared(fs, target, download);
    UnzipFile(fs1, DistributionZip(target), ExtractDir(target), SkipExamples)
  }

  /** Before extraction the build directory holds exactly the downloaded
      archive and the empty extract directory, whatever was there before. */
  lemma PreparedFresh(fs: FS, target: Path, download: seq<byte>)
    requires WellFormed(fs) && |target| > 0 && Prepared(fs, target, download).Ok?
    ensures var fs' := Prepared(fs, target, download).value;
      && fs'[DistributionZip(target)] == File(download, true)
      && fs'[ExtractDir(target)] == Dir
      && forall q :: q in fs' && IsPrefix(target, q) ==>
           q == target || q == DistributionZip(target) || q == ExtractDir(target)
  {
    RecreatedEmpty(fs, target);
  }

  /** The extraction acts as if the entries naming "examples" were not in
      the archive, and every entry it does extract has a name without
      "examples". */
  lemma ExtractionSkipsExamples(fs: FS, target: Path, download: seq<byte>, entries: seq<ZipEntry>)
    requires Prepared(fs, target, download).Ok? && Decode(download) == Some(entries)
    ensures var extracted := ArchiveLaws.Accepted(entries, SkipExamples);
      && (forall i :: 0 <= i < |extracted| ==> !Contains(extracted[i].name, "examples"))
      && CleanAndDownloadResult(fs, target, download)
         == Unzipped(Prepared(fs, target, download).value, ExtractDir(target), extracted, AcceptAll)
  {
    var fs1 := Prepared(fs, target, download).value;
    assert ReadArchive(fs1, DistributionZip(target)) == Ok(entries);
    ArchiveLaws.UnzipAcceptedOnly(fs1, ExtractDir(target), entries, SkipExamples);
  }

  /** Deletes and recreates the build directory, stores the download and
      extracts it. */
  method CleanAndDownload(fs: FileSystem, target: Path, download: seq<byte>) returns (r: Outcome)
    modifies fs
    ensures r == StatusOf(CleanAndDownloadResult(old(fs.nodes), target, download))
    ensures r.Pass? ==> fs.nodes == CleanAndDownloadResult(old(fs.nodes), target, download).value
  {
    var zipDistribution := DistributionZip(target);
    :- fs.Recreate(target);
    :- fs.Copy(download, zipDistribution);
    :- fs.CreateDirectory(ExtractDir(target));
    r := Unzip(fs, zipDistribution, ExtractDir(target), SkipExamples);
  }

  /** Where an artifact's sources come from, and the sources jar they are
      packed into. */
  datatype SourceLayout = SourceLayout(srcDir: Path, sourceJar: Path)

  /** src/<component id> for the artifact's jar, and src/"gradle-" + id +
      "-" + version + "-sources.jar". */
  function LayoutOf(gradleSrc: Path, version: string, a: Artifact): SourceLayout {
    var id := ComponentId(FileName(a.jar), version);
    SourceLayout(Resolve(gradleSrc, id), Resolve(gradleSrc, SourcesJarName(id, version)))
  }

  /** The layout of every artifact of a list. */
  function Layouts(gradleSrc: Path, version: string, arts: seq<Artifact>): (r: seq<SourceLayout>)
    ensures |r| == |arts|
    ensures forall i :: 0 <= i < |arts| ==> r[i] == LayoutOf(gradleSrc, version, arts[i])
  {
    seq(|arts|, i requires 0 <= i < |arts| => LayoutOf(gradleSrc, version, arts[i]))
  }

  /** One turn of the source-attachment loop: with a sources directory the
      artifact gets its sources jar, which is deleted and packed again. */
  function AttachStep(fs: FS, l: SourceLayout, a: Artifact, walk: seq<Path>): Result<(FS, Artifact)> {
    if !Exists(fs, l.srcDir) then Ok((fs, a))
    else
      var fs1 :- DeleteIfExists(fs, l.sourceJar);
      var fs2 :- ZipDirectoryResult(fs1, l.sourceJar, l.srcDir, walk);
      Ok((fs2, a.(sourcesJar := Some(l.sourceJar))))
  }

  /** The source-attachment loop over the working set; `ls[i]` is the
      layout of the i-th artifact and `walks[i]` the walk the i-th
      zipDirectory makes. */
  function Attached(fs: FS, ls: seq<SourceLayout>, arts: seq<Artifact>, walks: seq<seq<Path>>): Result<(FS, seq<Artifact>)>
    requires |ls| == |arts| && |walks| == |arts|
    decreases |arts|
  {
    if |arts| == 0 then Ok((fs, []))
    else
      var n := |arts| - 1;
      var done :- Attached(fs, ls[..n], arts[..n], walks[..n]);
      var step :- AttachStep(done.0, ls[n], arts[n], walks[n]);
      Ok((step.0, done.1 + [step.1]))
  }

  /** A step changes the file system at most at the artifact's sources
      jar, and changes nothing but the artifact's sourcesJar. */
  lemma AttachStepFrame(fs: FS, l: SourceLayout, a: Artifact, walk: seq<Path>, q: Path)
    requires AttachStep(fs, l, a, walk).Ok? && q != l.sourceJar
    ensures Agree(fs, AttachStep(fs, l, a, walk).value.0, q)
    ensures AttachStep(fs, l, a, walk).value.1.jar == a.jar
  {
    if Exists(fs, l.srcDir) {
      var fs1 := DeleteIfExists(fs, l.sourceJar).value;
      ArchiveLaws.ZipDirectoryArchive(fs1, l.sourceJar, l.srcDir, walk);
    }
  }

  /** What attachment makes of one artifact when the file system is `fs`:
      with a sources directory it gets the sources jar, otherwise it keeps
      what it had. */
  function WithSources(fs: FS, l: SourceLayout, a: Artifact): (r: Artifact)
    ensures r.jar == a.jar
  {
    if Exists(fs, l.srcDir) then a.(sourcesJar := Some(l.sourceJar)) else a
  }

  /** WithSources over a list. */
  function AllWithSources(fs: FS, ls: seq<SourceLayout>, arts: seq<Artifact>): (r: seq<Artifact>)
    requires |ls| == |arts|
    ensures |r| == |arts|
    ensures forall i :: 0 <= i < |arts| ==> r[i] == WithSources(fs, ls[i], arts[i])
  {
    seq(|arts|, i requires 0 <= i < |arts| => WithSources(fs, ls[i], arts[i]))
  }

  /** A step attaches the sources jar exactly when the sources directory
      exists. */
  lemma AttachStepSources(fs: FS, l: SourceLayout, a: Artifact, walk: seq<Path>)
    requires AttachStep(fs, l, a, walk).Ok?
    ensures AttachStep(fs, l, a, walk).value.1 == WithSources(fs, l, a)
  {
  }

  /** The fold's last turn: the prefix succeeded and the last step
      followed it. */
  lemma AttachedLast(fs: FS, ls: seq<SourceLayout>, arts: seq<Artifact>, walks: seq<seq<Path>>)
    requires |ls| == |arts| && |walks| == |arts| > 0 && Attached(fs, ls, arts, walks).Ok?
    ensures var n := |arts| - 1;
      var done := Attached(fs, ls[..n], arts[..n], walks[..n]);
      && done.Ok?
      && AttachStep(done.value.0, ls[n], arts[n], walks[n]).Ok?
      && var step := AttachStep(done.value.0, ls[n], arts[n], walks[n]).value;
         Attached(fs, ls, arts, walks).value == (step.0, done.value.1 + [step.1])
  {
  }

  /** The loop changes the file system only at sources jars. */
  lemma {:induction false} AttachedFrame(fs: FS, ls: seq<SourceLayout>, arts: seq<Artifact>, walks: seq<seq<Path>>, q: Path)
    requires |ls| == |arts| && |walks| == |arts| && Attached(fs, ls, arts, walks).Ok?
    requires forall i :: 0 <= i < |ls| ==> q != ls[i].sourceJar
    ensures Agree(fs, Attached(fs, ls, arts, walks).value.0, q)
    decreases |arts|
  {
    if |arts| > 0 {
      var n := |arts| - 1;
      AttachedLast(fs, ls, arts, walks);
      assert forall i :: 0 <= i < n ==> ls[..n][i] == ls[i];
      AttachedFrame(fs, ls[..n], arts[..n], walks[..n], q);
      var done := Attached(fs, ls[..n], arts[..n], walks[..n]).value;
      AttachStepFrame(done.0, ls[n], arts[n], walks[n], q);
    }
  }

  /** The loop keeps every artifact's jar in place. */
  lemma {:induction false} AttachedKeepsJars(fs: FS, ls: seq<SourceLayout>, arts: seq<Artifact>, walks: seq<seq<Path>>)
    requires |ls| == |arts| && |walks| == |arts| && Attached(fs, ls, arts, walks).Ok?
    ensures var out := Attached(fs, ls, arts, walks).value.1;
      |out| == |arts| && forall i :: 0 <= i < |arts| ==> out[i].jar == arts[i].jar
    decreases |arts|
  {
    if |arts| > 0 {
      var n := |arts| - 1;
      AttachedLast(fs, ls, arts, walks);
      AttachedKeepsJars(fs, ls[..n], arts[..n], walks[..n]);
      var done := Attached(fs, ls[..n], arts[..n], walks[..n]).value;
      AttachStepSources(done.0, ls[n], arts[n], walks[n]);
      var out := Attached(fs, ls, arts, walks).value.1;
      forall i | 0 <= i < |arts| ensures out[i].jar == arts[i].jar {
        if i < n {
          assert out[i] == done.1[i] && arts[..n][i] == arts[i];
        }
      }
    }
  }

  /** The k-th artifact leaves the loop as WithSources makes it from the
      file system the loop starts on, provided its sources directory is
      no artifact's sources jar. */
  lemma {:induction false} AttachedAt(fs: FS, ls: seq<SourceLayout>, arts: seq<Artifact>, walks: seq<seq<Path>>, k: nat)
    requires |ls| == |arts| && |walks| == |arts| && Attached(fs, ls, arts, walks).Ok? && k < |arts|
    requires forall i :: 0 <= i < |ls| ==> ls[k].srcDir != ls[i].sourceJar
    ensures |Attached(fs, ls, arts, walks).value.1| == |arts|
    ensures Attached(fs, ls, arts, walks).value.1[k] == WithSources(fs, ls[k], arts[k])
    decreases |arts|
  {
    var n := |arts| - 1;
    AttachedLast(fs, ls, arts, walks);
    var init := ls[..n];
    assert forall i :: 0 <= i < n ==> init[i] == ls[i];
    var done := Attached(fs, init, arts[..n], walks[..n]).value;
    AttachedFrame(fs, init, arts[..n], walks[..n], ls[k].srcDir);
    if k < n {
      assert arts[..n][k] == arts[k];
      AttachedAt(fs, init, arts[..n], walks[..n], k);
    } else {
      AttachedKeepsJars(fs, init, arts[..n], walks[..n]);
      AttachStepSources(done.0, ls[n], arts[n], walks[n]);
    }
  }

  /** Source attachment: an artifact gets its sources jar exactly when its
      sources directory exists when the loop starts, provided no sources
      directory is also the sources jar of an artifact; the others keep
      what they had. */
  lemma AttachedSources(fs: FS, ls: seq<SourceLayout>, arts: seq<Artifact>, walks: seq<seq<Path>>)
    requires |ls| == |arts| && |walks| == |arts| && Attached(fs, ls, arts, walks).Ok?
    requires forall i, j :: 0 <= i < |ls| && 0 <= j < |ls| ==> ls[i].srcDir != ls[j].sourceJar
    ensures Attached(fs, ls, arts, walks).value.1 == AllWithSources(fs, ls, arts)
  {
    var out := Attached(fs, ls, arts, walks).value.1;
    forall k | 0 <= k < |arts|
      ensures |out| == |arts| && out[k] == WithSources(fs, ls[k], arts[k])
    {
      AttachedAt(fs, ls, arts, walks, k);
    }
  }

  /** The walk a turn of the loop reports is a walk of the sources
      directory, taken once the old sources jar is deleted and the new one
      created, whenever the turn gets that far. */
  predicate StepWalk(fs: FS, l: SourceLayout, walk: seq<Path>) {
    var cleared := DeleteIfExists(fs, l.sourceJar);
    Exists(fs, l.srcDir) && cleared.Ok? ==> ZipWalk(cleared.value, l.sourceJar, l.srcDir, walk)
  }

  /** Each walk the loop reports is legitimate for the file system its
      turn starts on, for every turn the loop reaches. */
  predicate WalksTaken(fs: FS, ls: seq<SourceLayout>, arts: seq<Artifact>, walks: seq<seq<Path>>)
    requires |ls| == |arts| && |walks| <= |arts|
  {
    forall i :: 0 <= i < |walks| && Attached(fs, ls[..i], arts[..i], walks[..i]).Ok? ==>
      StepWalk(Attached(fs, ls[..i], arts[..i], walks[..i]).value.0, ls[i], walks[i])
  }

  /** A legitimate walk for the turn after a successful prefix extends the
      legitimate walks. */
  lemma WalksTakenNext(fs: FS, ls: seq<SourceLayout>, arts: seq<Artifact>, walks: seq<seq<Path>>, walk: seq<Path>)
    requires |ls| == |arts| && |walks| < |arts| && WalksTaken(fs, ls, arts, walks)
    requires Attached(fs, ls[..|walks|], arts[..|walks|], walks).Ok?
    requires StepWalk(Attached(fs, ls[..|walks|], arts[..|walks|], walks).value.0, ls[|walks|], walk)
    ensures WalksTaken(fs, ls, arts, walks + [walk])
  {
    var w := walks + [walk];
    forall i | 0 <= i < |w|
      ensures Attached(fs, ls[..i], arts[..i], w[..i]).Ok? ==>
                StepWalk(Attached(fs, ls[..i], arts[..i], w[..i]).value.0, ls[i], w[i])
    {
      if i < |walks| {
        assert w[..i] == walks[..i] && w[i] == walks[i];
      } else {
        assert w[..i] == walks;
      }
    }
  }

  /** Padding the walks after a failed turn with empty ones keeps them
      legitimate: the turns after it are never reached. */
  lemma WalksTakenPadded(fs: FS, ls: seq<SourceLayout>, arts: seq<Artifact>, walks: seq<seq<Path>>)
    requires |ls| == |arts| && |walks| <= |arts| && WalksTaken(fs, ls, arts, walks)
    requires Attached(fs, ls[..|walks|], arts[..|walks|], walks).Err?
    ensures WalksTaken(fs, ls, arts, Fit(walks, |arts|))
  {
    var padded := Fit(walks, |arts|);
    var m := |walks|;
    forall i | 0 <= i < |padded|
      ensures Attached(fs, ls[..i], arts[..i], padded[..i]).Ok? ==>
                StepWalk(Attached(fs, ls[..i], arts[..i], padded[..i]).value.0, ls[i], padded[i])
    {
      if i < m {
        assert padded[..i] == walks[..i] && padded[i] == walks[i];
      } else {
        assert ls[..i][..m] == ls[..m] && arts[..i][..m] == arts[..m] && padded[..i][..m] == walks;
        AttachedFailsOnward(fs, ls[..i], arts[..i], padded[..i], m);
      }
    }
  }

  /** The body of the source-attachment loop for the `i`-th artifact,
      whose sources directory and sources jar are `l`. */
  method AttachOne(fs: FileSystem, list: WorkingSet, i: nat, l: SourceLayout)
    returns (r: Outcome, ghost walk: seq<Path>)
    requires i < |list.artifacts|
    modifies fs, list
    ensures |list.artifacts| == |old(list.artifacts)|
    ensures list.artifacts == old(list.artifacts)[i := list.artifacts[i]]
    ensures r == StatusOf(AttachStep(old(fs.nodes), l, old(list.artifacts)[i], walk))
    ensures r.Pass? ==> AttachStep(old(fs.nodes), l, old(list.artifacts)[i], walk) == Ok((fs.nodes, list.artifacts[i]))
    ensures StepWalk(old(fs.nodes), l, walk)
  {
    walk := [];
    var srcJarDistribution := l.srcDir;
    var present := fs.Exists(srcJarDistribution);
    if present {
      var sourceJar := l.sourceJar;
      list.SetSources(i, sourceJar);
      :- fs.DeleteIfExists(sourceJar);
      r, walk := ZipDirectory(fs, sourceJar, srcJarDistribution);
    } else {
      r := Pass;
    }
  }

  /** Once a prefix of the loop fails, the whole loop fails the same way. */
  lemma {:induction false} AttachedFailsOnward(fs: FS, ls: seq<SourceLayout>, arts: seq<Artifact>, walks: seq<seq<Path>>, m: nat)
    requires |ls| == |arts| && |walks| == |arts| && m <= |arts|
    requires Attached(fs, ls[..m], arts[..m], walks[..m]).Err?
    ensures Attached(fs, ls, arts, walks) == Attached(fs, ls[..m], arts[..m], walks[..m])
    decreases |arts|
  {
    if m < |arts| {
      var n := |arts| - 1;
      assert ls[..n][..m] == ls[..m];
      assert arts[..n][..m] == arts[..m];
      assert walks[..n][..m] == walks[..m];
      AttachedFailsOnward(fs, ls[..n], arts[..n], walks[..n], m);
    } else {
      assert ls[..m] == ls;
      assert arts[..m] == arts;
      assert walks[..m] == walks;
    }
  }

  /** A failed prefix of the loop, with the walks never made left empty,
      is a failed loop. */
  lemma AttachedPaddedFails(fs: FS, ls: seq<SourceLayout>, arts: seq<Artifact>, walks: seq<seq<Path>>)
    requires |ls| == |arts| && |walks| <= |arts|
    requires Attached(fs, ls[..|walks|], arts[..|walks|], walks).Err?
    ensures Attached(fs, ls, arts, Fit(walks, |arts|)) == Attached(fs, ls[..|walks|], arts[..|walks|], walks)
  {
    var padded := Fit(walks, |arts|);
    assert padded[..|walks|] == walks;
    AttachedFailsOnward(fs, ls, arts, padded, |walks|);
  }

  /** One more turn of the loop: a successful step extends the fold over
      the prefix, a failed one fails the whole loop, the walks never made
      left empty. */
  lemma AttachedNext(fs: FS, ls: seq<SourceLayout>, arts: seq<Artifact>, walks: seq<seq<Path>>, walk: seq<Path>,
                     fs1: FS, done: seq<Artifact>, r: Outcome, fs2: FS, a: Artifact)
    requires |ls| == |arts| && |walks| < |arts|
    requires Attached(fs, ls[..|walks|], arts[..|walks|], walks) == Ok((fs1, done))
    requires r == StatusOf(AttachStep(fs1, ls[|walks|], arts[|walks|], walk))
    requires r.Pass? ==> AttachStep(fs1, ls[|walks|], arts[|walks|], walk) == Ok((fs2, a))
    ensures var i := |walks| + 1;
      r.Pass? ==> Attached(fs, ls[..i], arts[..i], walks + [walk]) == Ok((fs2, done + [a]))
    ensures r.Fail? ==> r == StatusOf(Attached(fs, ls, arts, Fit(walks + [walk], |arts|)))
    ensures var i := |walks| + 1; r.Fail? ==> Attached(fs, ls[..i], arts[..i], walks + [walk]).Err?
  {
    var i := |walks|;
    assert ls[..i + 1][..i] == ls[..i] && arts[..i + 1][..i] == arts[..i] && (walks + [walk])[..i] == walks;
    if r.Fail? {
      AttachedPaddedFails(fs, ls, arts, walks + [walk]);
    }
  }

  /** Replacing the i-th element extends the prefix before it by the new
      element and keeps what follows. */
  lemma ReplacedAt<T>(before: seq<T>, after: seq<T>, i: nat)
    requires i < |before| == |after| && after == before[i := after[i]]
    ensures after[..i + 1] == before[..i] + [after[i]]
    ensures after[i + 1..] == before[i + 1..]
  {
  }

  /** The loop over no artifacts changes nothing. */
  lemma AttachedNone(fs: FS, ls: seq<SourceLayout>, arts: seq<Artifact>)
    requires |ls| == |arts| == 0
    ensures Attached(fs, ls, arts, []) == Ok((fs, []))
  {
  }

  /** One turn of the source-attachment loop, stated as the fold over the
      artifacts before it and the artifact itself, from the file system
      `fs0` the loop started on; `ls` are the artifacts' layouts. */
  method AttachNext(fs: FileSystem, list: WorkingSet, i: nat, l: SourceLayout,
                    ghost fs0: FS, ghost ls: seq<SourceLayout>, ghost arts: seq<Artifact>, ghost walks: seq<seq<Path>>)
    returns (r: Outcome, ghost walk: seq<Path>)
    requires i == |walks| < |arts| == |list.artifacts| == |ls| && l == ls[i] && list.artifacts[i..] == arts[i..]
    requires Attached(fs0, ls[..i], arts[..i], walks) == Ok((fs.nodes, list.artifacts[..i]))
    requires WalksTaken(fs0, ls, arts, walks)
    modifies fs, list
    ensures |list.artifacts| == |arts|
    ensures WalksTaken(fs0, ls, arts, walks + [walk])
    ensures r.Fail? ==> Attached(fs0, ls[..i + 1], arts[..i + 1], walks + [walk]).Err?
    ensures r.Fail? ==> r == StatusOf(Attached(fs0, ls, arts, Fit(walks + [walk], |arts|)))
    ensures r.Pass? ==> && list.artifacts[i + 1..] == arts[i + 1..]
                        && Attached(fs0, ls[..i + 1], arts[..i + 1], walks + [walk]) == Ok((fs.nodes, list.artifacts[..i + 1]))
  {
    ghost var fs1 := fs.nodes;
    ghost var before := list.artifacts;
    assert before[i] == arts[i] && before[i + 1..] == arts[i + 1..];
    r, walk := AttachOne(fs, list, i, l);
    AttachedNext(fs0, ls, arts, walks, walk, fs1, before[..i], r, fs.nodes, list.artifacts[i]);
    WalksTakenNext(fs0, ls, arts, walks, walk);
    ReplacedAt(before, list.artifacts, i);
  }

  /** The loop over the working set that sets sourcesJar and packs the
      sources. `walks` holds the walk of each zipDirectory call; those
      after a failure are never made and are empty. */
  method AttachSources(fs: FileSystem, list: WorkingSet, gradleSrc: Path, version: string)
    returns (r: Outcome, ghost walks: seq<seq<Path>>)
    modifies fs, list
    ensures |walks| == |old(list.artifacts)|
    ensures r == StatusOf(Attached(old(fs.nodes), Layouts(gradleSrc, version, old(list.artifacts)), old(list.artifacts), walks))
    ensures r.Pass? ==> Attached(old(fs.nodes), Layouts(gradleSrc, version, old(list.artifacts)), old(list.artifacts), walks)
                        == Ok((fs.nodes, list.artifacts))
    ensures WalksTaken(old(fs.nodes), Layouts(gradleSrc, version, old(list.artifacts)), old(list.artifacts), walks)
  {
    ghost var arts := list.artifacts;
    ghost var fs0 := fs.nodes;
    ghost var ls := Layouts(gradleSrc, version, arts);
    walks := [];
    AttachedNone(fs0, ls[..0], arts[..0]);
    assert list.artifacts[..0] == [];
    var i := 0;
    while i < |list.artifacts|
      invariant 0 <= i <= |arts| == |list.artifacts| && |walks| == i
      invariant list.artifacts[i..] == arts[i..]
      invariant Attached(fs0, ls[..i], arts[..i], walks) == Ok((fs.nodes, list.artifacts[..i]))
      invariant WalksTaken(fs0, ls, arts, walks)
    {
      var layout := LayoutOf(gradleSrc, version, list.artifacts[i]);
      ghost var walk;
      r, walk := AttachNext(fs, list, i, layout, fs0, ls, arts, walks);
      walks := walks + [walk];
      if r.Fail? {
        WalksTakenPadded(fs0, ls, arts, walks);
        walks := Fit(walks, |arts|);
        return;
      }
      i := i + 1;
    }
    assert ls[..i] == ls;
    assert arts[..i] == arts && list.artifacts[..i] == list.artifacts;
    r := Pass;
  }

  /** The post-processing hook of each deployer. */
  function PostProcessed(strategy: Strategy, fs: FS, target: Path, arts: seq<Artifact>, version: string,
                         walk: seq<Path>, sourcesWalk: seq<Path>): Result<(FS, seq<Artifact>)>
  {
    match strategy
    case Independent => Ok((fs, arts))
    case FatJarMerge =>
      var fs1 :- FatJar.PostProcessResult(fs, target, arts, version, walk, sourcesWalk);
      Ok((fs1, [Artifact(FatJar.FatJarPath(target, version), Some(FatJar.FatSourcesJarPath(target, version)))]))
  }

  /** postProcess, dispatched on the deployer: the independent deployer's
      hook does nothing. */
  method PostProcess(strategy: Strategy, fs: FileSystem, target: Path, list: WorkingSet, version: string)
    returns (r: Outcome, ghost walk: seq<Path>, ghost sourcesWalk: seq<Path>)
    modifies fs, list
    ensures r == StatusOf(PostProcessed(strategy, old(fs.nodes), target, old(list.artifacts), version, walk, sourcesWalk))
    ensures r.Pass? ==> PostProcessed(strategy, old(fs.nodes), target, old(list.artifacts), version, walk, sourcesWalk)
                        == Ok((fs.nodes, list.artifacts))
    ensures strategy == FatJarMerge ==> FatJar.Walked(old(fs.nodes), target, old(list.artifacts), version, walk, sourcesWalk)
  {
    match strategy
    case Independent =>
      r, walk, sourcesWalk := Pass, [], [];
    case FatJarMerge =>
      r, walk, sourcesWalk := FatJar.PostProcess(fs, target, list, version);
  }

  /** Paths.get("build") against the working directory. */
  function BuildDir(cwd: Path): Path {
    cwd + ["build"]
  }

  /** The choices the run leaves to the file system: the distribution
      directory findAny picks, the walk of lib, and the walks of the
      zipDirectory calls for sources and for the fat jars. */
  datatype Choices = Choices(gradleDirectory: Path, libWalk: seq<Path>, sourceWalks: seq<seq<Path>>,
                             fatWalk: seq<Path>, fatSourcesWalk: seq<Path>)

  /** `walks` cut or padded with empty walks to length n. */
  function Fit(walks: seq<seq<Path>>, n: nat): (r: seq<seq<Path>>)
    ensures |r| == n
    ensures |walks| == n ==> r == walks
  {
    seq(n, i requires 0 <= i < n => if i < |walks| then walks[i] else [])
  }

  /** The source-attachment step: it runs only when the distribution has
      a src directory. */
  function Sourced(fs: FS, gradleSrc: Path, version: string, arts: seq<Artifact>, walks: seq<seq<Path>>): Result<(FS, seq<Artifact>)> {
    if Exists(fs, gradleSrc) then Attached(fs, Layouts(gradleSrc, version, arts), arts, Fit(walks, |arts|)) else Ok((fs, arts))
  }

  /** The walks of the source-attachment step are legitimate wherever it
      runs. */
  predicate SourcedWalks(fs: FS, gradleSrc: Path, version: string, arts: seq<Artifact>, walks: seq<seq<Path>>) {
    Exists(fs, gradleSrc) ==> WalksTaken(fs, Layouts(gradleSrc, version, arts), arts, Fit(walks, |arts|))
  }

  /** The version: the distribution directory's name without "gradle-". */
  function VersionOfDistribution(c: Choices): string {
    Version(FileName(c.gradleDirectory))
  }

  /** Deployer.run from the collection of the lib jars to the hook, once
      the distribution directory is chosen: the file system it leaves and
      the list of artifacts to deploy. */
  function Listed(fs: FS, strategy: Strategy, target: Path, c: Choices): Result<(FS, seq<Artifact>)> {
    var version := VersionOfDistribution(c);
    var gradleLib := c.gradleDirectory + ["lib"];
    if gradleLib !in fs then Err(NoSuchFile(gradleLib))
    else
      var done :- Sourced(fs, c.gradleDirectory + ["src"], version, Unattached(GradleJars(c.libWalk)), c.sourceWalks);
      PostProcessed(strategy, done.0, target, done.1, version, c.fatWalk, c.fatSourcesWalk)
  }

  /** Deployer.run up to the deploy loop: the file system it leaves and the
      list of artifacts it deploys. */
  function RunResult(fs: FS, strategy: Strategy, target: Path, download: seq<byte>, c: Choices): Result<(FS, seq<Artifact>)> {
    var fs1 :- CleanAndDownloadResult(fs, target, download);
    var extract := ExtractDir(target);
    if extract !in fs1 then Err(NoSuchFile(extract))
    else if Subtree(fs1, extract) <= {extract} then Err(NoSuchElement)
    else Listed(fs1, strategy, target, c)
  }

  /** The choices a run makes are the file system's: the distribution
      directory is below extract, and the lib walk lists lib's subtree. */
  predicate Chosen(fs: FS, target: Path, download: seq<byte>, c: Choices) {
    && CleanAndDownloadResult(fs, target, download).Ok?
    && var fs1 := CleanAndDownloadResult(fs, target, download).value;
       && c.gradleDirectory in Subtree(fs1, ExtractDir(target)) - {ExtractDir(target)}
       && IsWalk(fs1, c.gradleDirectory + ["lib"], c.libWalk)
  }

  /** Every walk from the collection of the lib jars on is a walk of the
      directory it lists, taken in the state the run had reached, for every
      step the run reaches. */
  predicate ListedWalks(fs: FS, strategy: Strategy, target: Path, c: Choices) {
    var gradleLib := c.gradleDirectory + ["lib"];
    var gradleSrc := c.gradleDirectory + ["src"];
    var version := VersionOfDistribution(c);
    var arts := Unattached(GradleJars(c.libWalk));
    gradleLib in fs ==>
      && IsWalk(fs, gradleLib, c.libWalk)
      && SourcedWalks(fs, gradleSrc, version, arts, c.sourceWalks)
      && (strategy == FatJarMerge && Sourced(fs, gradleSrc, version, arts, c.sourceWalks).Ok? ==>
            var done := Sourced(fs, gradleSrc, version, arts, c.sourceWalks).value;
            FatJar.Walked(done.0, target, done.1, version, c.fatWalk, c.fatSourcesWalk))
  }

  /** The choices a run makes are the file system's wherever the run gets
      to make them: once extract has something below it, the distribution
      directory is below extract, and every later walk is legitimate. */
  predicate Legitimate(fs: FS, strategy: Strategy, target: Path, download: seq<byte>, c: Choices) {
    var cleaned := CleanAndDownloadResult(fs, target, download);
    var extract := ExtractDir(target);
    cleaned.Ok? && extract in cleaned.value && !(Subtree(cleaned.value, extract) <= {extract}) ==>
      && c.gradleDirectory in Subtree(cleaned.value, extract) - {extract}
      && ListedWalks(cleaned.value, strategy, target, c)
  }

  /** The processes the deploy loop starts for the first n artifacts. */
  function Deployments(command: string, version: string, arts: seq<Artifact>, n: nat): (r: seq<Event>)
    requires n <= |arts|
    ensures |r| == n
    ensures forall i :: 0 <= i < n ==> r[i] == Invoke(Invocation(command, version, arts[i]))
  {
    seq(n, i requires 0 <= i < n => Invoke(Invocation(command, version, arts[i])))
  }

  /** Process starts for the given argument lists. */
  function Invokes(calls: seq<seq<string>>): (r: seq<Event>)
    ensures |r| == |calls|
    ensures forall i :: 0 <= i < |calls| ==> r[i] == Invoke(calls[i])
  {
    seq(|calls|, i requires 0 <= i < |calls| => Invoke(calls[i]))
  }

  /** Files.walk(extract).filter(not extract).findAny().get(): some path
      below the extract directory, or NoSuchElementException. */
  method FindDistribution(fs: FileSystem, extract: Path) returns (r: Outcome, gradleDirectory: Path)
    ensures r == if extract !in fs.nodes then Fail(NoSuchFile(extract))
                 else if Subtree(fs.nodes, extract) <= {extract} then Fail(NoSuchElement) else Pass
    ensures r.Pass? ==> gradleDirectory in Subtree(fs.nodes, extract) - {extract}
  {
    var paths;
    gradleDirectory := [];
    r, paths := fs.Walk(extract);
    if r.Fail? {
      return;
    }
    if forall i :: 0 <= i < |paths| ==> paths[i] == extract {
      assert Subtree(fs.nodes, extract) <= {extract} by {
        forall q | q in Subtree(fs.nodes, extract) ensures q == extract {
          assert q in (set q | q in paths);
        }
      }
      return Fail(NoSuchElement), [];
    }
    var i :| 0 <= i < |paths| && paths[i] != extract;
    gradleDirectory := paths[i];
    assert gradleDirectory in (set q | q in paths);
    assert gradleDirectory in Subtree(fs.nodes, extract) && gradleDirectory !in {extract};
  }

  /** if (Files.exists(gradleSrc)) { ... }: the source-attachment loop,
      entered only when the distribution has a src directory. */
  method AttachIfSources(fs: FileSystem, list: WorkingSet, gradleSrc: Path, version: string)
    returns (r: Outcome, ghost walks: seq<seq<Path>>)
    modifies fs, list
    ensures r == StatusOf(Sourced(old(fs.nodes), gradleSrc, version, old(list.artifacts), walks))
    ensures r.Pass? ==> Sourced(old(fs.nodes), gradleSrc, version, old(list.artifacts), walks) == Ok((fs.nodes, list.artifacts))
    ensures SourcedWalks(old(fs.nodes), gradleSrc, version, old(list.artifacts), walks)
  {
    walks := [];
    var hasSources := fs.Exists(gradleSrc);
    if hasSources {
      r, walks := AttachSources(fs, list, gradleSrc, version);
    } else {
      r := Pass;
    }
  }

  /** The working set the run deploys: the Gradle jars of lib, with the
      sources attached when there is a src directory, after the hook. */
  method BuildList(fs: FileSystem, strategy: Strategy, target: Path, gradleDirectory: Path)
    returns (r: Outcome, deployed: seq<Artifact>, ghost c: Choices)
    modifies fs
    ensures c.gradleDirectory == gradleDirectory
    ensures r == StatusOf(Listed(old(fs.nodes), strategy, target, c))
    ensures r.Pass? ==> IsWalk(old(fs.nodes), gradleDirectory + ["lib"], c.libWalk)
    ensures r.Pass? ==> Listed(old(fs.nodes), strategy, target, c) == Ok((fs.nodes, deployed))
    ensures ListedWalks(old(fs.nodes), strategy, target, c)
  {
    deployed, c := [], Choices(gradleDirectory, [], [], [], []);
    ghost var fs0 := fs.nodes;
    var version := Version(FileName(gradleDirectory));
    var jarLibsForDeploy := new WorkingSet();
    ghost var libWalk;
    r, libWalk := CollectJars(fs, gradleDirectory + ["lib"], jarLibsForDeploy);
    c := c.(libWalk := libWalk);
    if r.Fail? {
      return;
    }
    ghost var arts := Unattached(GradleJars(libWalk));
    assert jarLibsForDeploy.artifacts == arts;
    ghost var walks;
    r, walks := AttachIfSources(fs, jarLibsForDeploy, gradleDirectory + ["src"], version);
    c := c.(sourceWalks := walks);
    ghost var sourced := Sourced(fs0, gradleDirectory + ["src"], version, arts, walks);
    if r.Fail? {
      assert sourced.Err?;
      return;
    }
    assert sourced == Ok((fs.nodes, jarLibsForDeploy.artifacts));
    ghost var walk, sourcesWalk;
    r, walk, sourcesWalk := PostProcess(strategy, fs, target, jarLibsForDeploy, version);
    c := c.(fatWalk := walk, fatSourcesWalk := sourcesWalk);
    deployed := jarLibsForDeploy.artifacts;
    assert Listed(fs0, strategy, target, c)
        == PostProcessed(strategy, sourced.value.0, target, sourced.value.1, version, walk, sourcesWalk);
  }

  /** Deployer.run. The program arguments, MAVEN_HOME, os.name, the bytes
      the distribution URL serves and the exit status of each Maven run
      are parameters; `trace` lists what the run reports and the processes
      it starts. */
  method Run(fs: FileSystem, strategy: Strategy, cwd: Path, mavenHomeEnv: Option<string>, args: seq<string>,
             osName: string, download: seq<byte>, exitStatus: nat -> int)
    returns (r: Outcome, trace: seq<Event>, ghost c: Choices, ghost deployed: seq<Artifact>)
    modifies fs
    ensures MavenHome(mavenHomeEnv, args).Err? ==> r == Fail(MissingArgument) && fs.nodes == old(fs.nodes)
    ensures MavenHome(mavenHomeEnv, args).Ok? ==> r == StatusOf(RunResult(old(fs.nodes), strategy, BuildDir(cwd), download, c))
    ensures r.Fail? ==> trace == []
    ensures MavenHome(mavenHomeEnv, args).Ok? ==> Legitimate(old(fs.nodes), strategy, BuildDir(cwd), download, c)
    ensures r.Pass? ==> Chosen(old(fs.nodes), BuildDir(cwd), download, c)
    ensures r.Pass? ==> RunResult(old(fs.nodes), strategy, BuildDir(cwd), download, c) == Ok((fs.nodes, deployed))
    ensures r.Pass? ==>
      var command := CommandFile(MavenHome(mavenHomeEnv, args).value, IsWindows(osName));
      trace == Reports(WithoutSources(deployed))
               + Deployments(command, VersionOfDistribution(c), deployed, RunsMade(exitStatus, |deployed|, 0))
  {
    trace, c, deployed := [], Choices([], [], [], [], []), [];
    var mavenHome := MavenHome(mavenHomeEnv, args);
    if mavenHome.Err? {
      return Fail(MissingArgument), [], c, [];
    }
    var target := BuildDir(cwd);
    r := CleanAndDownload(fs, target, download);
    if r.Fail? {
      return;
    }
    var gradleDirectory;
    r, gradleDirectory := FindDistribution(fs, ExtractDir(target));
    if r.Fail? {
      return;
    }
    var version := Version(FileName(gradleDirectory));
    var jarLibsForDeploy;
    r, jarLibsForDeploy, c := BuildList(fs, strategy, target, gradleDirectory);
    if r.Fail? {
      return;
    }
    deployed := jarLibsForDeploy;
    var isWindows := IsWindows(osName);
    var commandFile := CommandFile(mavenHome.value, isWindows);
    trace := Publish(jarLibsForDeploy, version, commandFile, exitStatus);
  }

  /** The end of run: the missing-source report, then the deploy loop. */
  method Publish(arts: seq<Artifact>, version: string, commandFile: string, exitStatus: nat -> int) returns (trace: seq<Event>)
    ensures trace == Reports(WithoutSources(arts)) + Deployments(commandFile, version, arts, RunsMade(exitStatus, |arts|, 0))
  {
    var reports := ReportMissing(arts);
    var calls := DeployAll(arts, version, commandFile, exitStatus);
    trace := reports + Invokes(calls);
    assert Invokes(calls) == Deployments(commandFile, version, arts, |calls|);
  }

  /** What a successful run deploys: the independent deployer's list is
      the attachment loop's, the fat-jar deployer's is the merged jar. */
  lemma RunDeploys(fs: FS, strategy: Strategy, target: Path, download: seq<byte>, c: Choices)
    requires RunResult(fs, strategy, target, download, c).Ok?
    ensures CleanAndDownloadResult(fs, target, download).Ok?
    ensures var fs1 := CleanAndDownloadResult(fs, target, download).value;
      var sourced := Sourced(fs1, c.gradleDirectory + ["src"], VersionOfDistribution(c), Unattached(GradleJars(c.libWalk)), c.sourceWalks);
      && sourced.Ok?
      && RunResult(fs, strategy, target, download, c).value.1
         == match strategy
            case Independent => sourced.value.1
            case FatJarMerge =>
              [Artifact(FatJar.FatJarPath(target, VersionOfDistribution(c)), Some(FatJar.FatSourcesJarPath(target, VersionOfDistribution(c))))]
  {
  }

  /** With the independent deployer the run deploys exactly the jars below
      lib whose name starts with "gradle-" and ends with ".jar", each once,
      in walk order. */
  lemma IndependentDeploysLibJars(fs: FS, target: Path, download: seq<byte>, c: Choices, p: Path)
    requires Chosen(fs, target, download, c) && RunResult(fs, Independent, target, download, c).Ok?
    ensures var deployed := RunResult(fs, Independent, target, download, c).value.1;
      var fs1 := CleanAndDownloadResult(fs, target, download).value;
      && |deployed| == |GradleJars(c.libWalk)|
      && (forall i :: 0 <= i < |deployed| ==> deployed[i].jar == GradleJars(c.libWalk)[i])
      && (p in GradleJars(c.libWalk) <==> p in Subtree(fs1, c.gradleDirectory + ["lib"]) && IsGradleJar(FileName(p)))
  {
    RunDeploys(fs, Independent, target, download, c);
    var fs1 := CleanAndDownloadResult(fs, target, download).value;
    var arts := Unattached(GradleJars(c.libWalk));
    var gradleSrc := c.gradleDirectory + ["src"];
    if Exists(fs1, gradleSrc) {
      AttachedKeepsJars(fs1, Layouts(gradleSrc, VersionOfDistribution(c), arts), arts, Fit(c.sourceWalks, |arts|));
    }
    GradleJarsOfWalk(fs1, c.gradleDirectory + ["lib"], c.libWalk, p);
  }

  /** With the independent deployer a jar leaves with the sources jar
      packed from its src directory when that directory exists, and
      without one otherwise (so it is reported), provided no sources
      directory is another jar's sources jar. */
  lemma IndependentAttachesSources(fs: FS, target: Path, download: seq<byte>, c: Choices)
    requires Chosen(fs, target, download, c) && RunResult(fs, Independent, target, download, c).Ok?
    requires var arts := Unattached(GradleJars(c.libWalk));
      forall i, j :: 0 <= i < |arts| && 0 <= j < |arts| ==>
        LayoutOf(c.gradleDirectory + ["src"], VersionOfDistribution(c), arts[i]).srcDir
          != LayoutOf(c.gradleDirectory + ["src"], VersionOfDistribution(c), arts[j]).sourceJar
    ensures var fs1 := CleanAndDownloadResult(fs, target, download).value;
      var gradleSrc := c.gradleDirectory + ["src"];
      var arts := Unattached(GradleJars(c.libWalk));
      RunResult(fs, Independent, target, download, c).value.1
        == if Exists(fs1, gradleSrc) then AllWithSources(fs1, Layouts(gradleSrc, VersionOfDistribution(c), arts), arts) else arts
  {
    RunDeploys(fs, Independent, target, download, c);
    var fs1 := CleanAndDownloadResult(fs, target, download).value;
    var arts := Unattached(GradleJars(c.libWalk));
    var gradleSrc := c.gradleDirectory + ["src"];
    if Exists(fs1, gradleSrc) {
      AttachedSources(fs1, Layouts(gradleSrc, VersionOfDistribution(c), arts), arts, Fit(c.sourceWalks, |arts|));
    }
  }

  /** With the fat-jar deployer the run deploys one artifact, the merged
      jar with the merged sources jar, so nothing is reported; for a
      version without '/' whose "-" + version + ".jar" occurs in the jar
      name only at its end, it deploys as "gradle-all". */
  lemma FatJarDeploysMerged(fs: FS, target: Path, download: seq<byte>, c: Choices)
    requires RunResult(fs, FatJarMerge, target, download, c).Ok?
    ensures var v := VersionOfDistribution(c);
      var deployed := RunResult(fs, FatJarMerge, target, download, c).value.1;
      && deployed == [Artifact(FatJar.FatJarPath(target, v), Some(FatJar.FatSourcesJarPath(target, v)))]
      && WithoutSources(deployed) == []
      && ('/' !in v && OccursOnlyAtEnd("gradle-all-" + v + ".jar", "-" + v + ".jar") ==>
            DeployArtifactId(FileName(deployed[0].jar), v) == "gradle-all")
  {
    RunDeploys(fs, FatJarMerge, target, download, c);
    var v := VersionOfDistribution(c);
    if '/' !in v && OccursOnlyAtEnd("gradle-all-" + v + ".jar", "-" + v + ".jar") {
      FatJarArtifactId(target, v);
    }
  }

  /** Helper for FatJarDeploysMerged: the merged jar's artifact id. */
  lemma FatJarArtifactId(target: Path, v: string)
    requires '/' !in v && OccursOnlyAtEnd("gradle-all-" + v + ".jar", "-" + v + ".jar")
    ensures DeployArtifactId(FileName(FatJar.FatJarPath(target, v)), v) == "gradle-all"
  {
    var name := "gradle-all-" + v + ".jar";
    assert '/' !in name;
    ResolvePlain(target, name);
    assert name == "gradle-all" + "-" + v + ".jar";
    DeployArtifactIdOf("gradle-all", v);
  }
}
