/** What the fat-jar hook leaves behind: which files the two merge
    directories hold after the merge loop, and which entries the two merged
    jars hold, stated over the jars of the working set as they were read
    before the hook ran. */
module FatJarLaws {
  import opened Base
  import opened Text
  import opened Paths
  import opened FileTree
  import opened Archive
  import opened Io
  import opened ArchiveCodec
  import opened ArchiveLaws
  import opened Artifacts
  import opened FatJar

  /** Neither path lies on the way to the other. */
  predicate Apart(p: Path, q: Path) {
    !IsPrefix(p, q) && !IsPrefix(q, p)
  }

  /** Two paths that both lie on the way to a third are on one line. */
  lemma CommonPrefix(a: Path, b: Path, q: Path)
    requires IsPrefix(a, q) && IsPrefix(b, q)
    ensures !Apart(a, b)
  {
    if |a| <= |b| {
      assert b[..|a|] == q[..|a|];
    } else {
      assert a[..|b|] == q[..|b|];
    }
  }

  /** An entry name that does not start with '/' and has no "." or ".."
      component resolves below the directory it is extracted to. */
  predicate Relative(entries: seq<ZipEntry>) {
    forall i :: 0 <= i < |entries| ==> !StartsWith(entries[i].name, "/") && NoDotComponents(entries[i].name)
  }

  /** A path apart from the extraction directory is not on the way to
      where a relative entry goes. */
  lemma MissesApart(dir: Path, p: Path, name: string)
    requires !StartsWith(name, "/") && Apart(p, dir)
    ensures !IsPrefix(p, Resolve(dir, name))
  {
    assert Resolve(dir, name) == dir + Components(name);
  }

  /** A jar the hook reads: apart from both merge directories, and, when it
      holds an archive, one whose entry names are relative. */
  predicate JarInput(fs: FS, fatDir: Path, fatSourcesDir: Path, jar: Path) {
    && Apart(jar, fatDir) && Apart(jar, fatSourcesDir)
    && (ReadArchive(fs, jar).Ok? ==> Relative(ReadArchive(fs, jar).value))
  }

  /** Every binary and every attached sources jar of the working set is a
      jar the hook can read without disturbing it. */
  predicate Inputs(fs: FS, fatDir: Path, fatSourcesDir: Path, arts: seq<Artifact>) {
    forall i :: 0 <= i < |arts| ==>
      && JarInput(fs, fatDir, fatSourcesDir, arts[i].jar)
      && (arts[i].sourcesJar.Some? ==> JarInput(fs, fatDir, fatSourcesDir, arts[i].sourcesJar.value))
  }

  /** The archive at `jar` has an accepted file entry extracted at `q`. */
  predicate JarWrites(fs: FS, jar: Path, dir: Path, skip: string -> bool, q: Path) {
    && ReadArchive(fs, jar).Ok?
    && exists k :: 0 <= k < |ReadArchive(fs, jar).value| && Writes(dir, ReadArchive(fs, jar).value[k], skip, q)
  }

  /** Some binary jar of the working set has an entry outside org/slf4j/
      that is extracted as a file at `q` of the binary merge directory. */
  predicate BinaryWrites(fs: FS, fatDir: Path, arts: seq<Artifact>, q: Path) {
    exists i :: 0 <= i < |arts| && JarWrites(fs, arts[i].jar, fatDir, SkipSlf4j, q)
  }

  /** Some artifact of the working set with a sources jar has an entry of
      it extracted as a file at `q` of the sources merge directory. */
  predicate SourcesWrites(fs: FS, fatSourcesDir: Path, arts: seq<Artifact>, q: Path) {
    exists i :: 0 <= i < |arts| && arts[i].sourcesJar.Some?
      && JarWrites(fs, arts[i].sourcesJar.value, fatSourcesDir, AcceptAll, q)
  }

  /** Reading an archive depends only on the node at its path. */
  lemma ReadAgrees(fs: FS, fs': FS, jar: Path)
    requires Agree(fs, fs', jar)
    ensures ReadArchive(fs, jar) == ReadArchive(fs', jar)
  {
  }

  /** A path apart from the directory a relative archive is unpacked into
      keeps its node. */
  lemma UnzipFileFrame(fs: FS, zip: Path, dir: Path, skip: string -> bool, q: Path)
    requires UnzipFile(fs, zip, dir, skip).Ok?
    requires Relative(ReadArchive(fs, zip).value) && Apart(q, dir)
    ensures Agree(fs, UnzipFile(fs, zip, dir, skip).value, q)
  {
    var entries := ReadArchive(fs, zip).value;
    forall i | 0 <= i < |entries|
      ensures !Touches(dir, entries[i], skip, q)
    {
      MissesApart(dir, q, entries[i].name);
    }
    UnzippedFrame(fs, dir, entries, skip, q);
  }

  /** The regular files after unpacking an archive are those before plus
      the targets of its accepted file entries. */
  lemma UnzipFileFiles(fs: FS, zip: Path, dir: Path, skip: string -> bool, q: Path)
    requires UnzipFile(fs, zip, dir, skip).Ok?
    ensures IsFile(UnzipFile(fs, zip, dir, skip).value, q) <==> IsFile(fs, q) || JarWrites(fs, zip, dir, skip, q)
  {
    UnzippedFiles(fs, dir, ReadArchive(fs, zip).value, skip, q);
  }

  /** A file extracted below one directory is not below a directory apart
      from it. */
  lemma WritesBelow(dir: Path, other: Path, e: ZipEntry, skip: string -> bool, q: Path)
    requires !StartsWith(e.name, "/") && Apart(dir, other) && IsPrefix(other, q)
    ensures !Writes(dir, e, skip, q)
  {
    if Writes(dir, e, skip, q) {
      assert Resolve(dir, e.name) == dir + Components(e.name);
      assert IsPrefix(dir, q);
      CommonPrefix(dir, other, q);
    }
  }

  /** No relative archive writes a file below a directory apart from the
      one it is unpacked into. */
  lemma JarWritesBelow(fs: FS, zip: Path, dir: Path, other: Path, skip: string -> bool, q: Path)
    requires ReadArchive(fs, zip).Ok? ==> Relative(ReadArchive(fs, zip).value)
    requires Apart(dir, other) && IsPrefix(other, q)
    ensures !JarWrites(fs, zip, dir, skip, q)
  {
    if JarWrites(fs, zip, dir, skip, q) {
      var entries := ReadArchive(fs, zip).value;
      var k :| 0 <= k < |entries| && Writes(dir, entries[k], skip, q);
      WritesBelow(dir, other, entries[k], skip, q);
    }
  }

  /** One turn of the merge loop: paths apart from both directories keep
      their node; below the binary directory the files gain the jar's
      targets, below the sources directory those of its sources jar. */
  lemma MergeStepEffect(fs: FS, fatDir: Path, fatSourcesDir: Path, a: Artifact, q: Path)
    requires Apart(fatDir, fatSourcesDir)
    requires JarInput(fs, fatDir, fatSourcesDir, a.jar)
    requires a.sourcesJar.Some? ==> JarInput(fs, fatDir, fatSourcesDir, a.sourcesJar.value)
    requires MergeStep(fs, fatDir, fatSourcesDir, a).Ok?
    ensures var fs' := MergeStep(fs, fatDir, fatSourcesDir, a).value;
      && (Apart(q, fatDir) && Apart(q, fatSourcesDir) ==> Agree(fs, fs', q))
      && (IsPrefix(fatDir, q) ==> (IsFile(fs', q) <==> IsFile(fs, q) || JarWrites(fs, a.jar, fatDir, SkipSlf4j, q)))
      && (IsPrefix(fatSourcesDir, q) ==>
            var extracted := a.sourcesJar.Some? && JarWrites(fs, a.sourcesJar.value, fatSourcesDir, AcceptAll, q);
            (IsFile(fs', q) <==> IsFile(fs, q) || extracted))
  {
    var fs1 := UnzipFile(fs, a.jar, fatDir, SkipSlf4j).value;
    UnzipFileFiles(fs, a.jar, fatDir, SkipSlf4j, q);
    if Apart(q, fatDir) {
      UnzipFileFrame(fs, a.jar, fatDir, SkipSlf4j, q);
    }
    if IsPrefix(fatSourcesDir, q) {
      JarWritesBelow(fs, a.jar, fatDir, fatSourcesDir, SkipSlf4j, q);
    }
    if a.sourcesJar.Some? {
      var src := a.sourcesJar.value;
      UnzipFileFrame(fs, a.jar, fatDir, SkipSlf4j, src);
      ReadAgrees(fs, fs1, src);
      UnzipFileFiles(fs1, src, fatSourcesDir, AcceptAll, q);
      if Apart(q, fatSourcesDir) {
        UnzipFileFrame(fs1, src, fatSourcesDir, AcceptAll, q);
      }
      if IsPrefix(fatDir, q) {
        JarWritesBelow(fs1, src, fatSourcesDir, fatDir, AcceptAll, q);
      }
    }
  }

  /** The inputs still read the same after a turn of the merge loop, so
      the rest of the loop sees the archives the hook started with. */
  lemma StepKeepsInputs(fs: FS, fatDir: Path, fatSourcesDir: Path, arts: seq<Artifact>)
    requires Apart(fatDir, fatSourcesDir) && |arts| > 0 && Inputs(fs, fatDir, fatSourcesDir, arts)
    requires MergeStep(fs, fatDir, fatSourcesDir, arts[0]).Ok?
    ensures var fs1 := MergeStep(fs, fatDir, fatSourcesDir, arts[0]).value;
      && Inputs(fs1, fatDir, fatSourcesDir, arts[1..])
      && (forall i :: 0 <= i < |arts| ==> ReadArchive(fs1, arts[i].jar) == ReadArchive(fs, arts[i].jar))
      && (forall i :: 0 <= i < |arts| && arts[i].sourcesJar.Some? ==>
            ReadArchive(fs1, arts[i].sourcesJar.value) == ReadArchive(fs, arts[i].sourcesJar.value))
  {
    var fs1 := MergeStep(fs, fatDir, fatSourcesDir, arts[0]).value;
    forall i | 0 <= i < |arts|
      ensures ReadArchive(fs1, arts[i].jar) == ReadArchive(fs, arts[i].jar)
      ensures arts[i].sourcesJar.Some? ==>
                ReadArchive(fs1, arts[i].sourcesJar.value) == ReadArchive(fs, arts[i].sourcesJar.value)
    {
      MergeStepEffect(fs, fatDir, fatSourcesDir, arts[0], arts[i].jar);
      ReadAgrees(fs, fs1, arts[i].jar);
      if arts[i].sourcesJar.Some? {
        MergeStepEffect(fs, fatDir, fatSourcesDir, arts[0], arts[i].sourcesJar.value);
        ReadAgrees(fs, fs1, arts[i].sourcesJar.value);
      }
    }
    forall i | 0 <= i < |arts[1..]|
      ensures JarInput(fs1, fatDir, fatSourcesDir, arts[1..][i].jar)
      ensures arts[1..][i].sourcesJar.Some? ==> JarInput(fs1, fatDir, fatSourcesDir, arts[1..][i].sourcesJar.value)
    {
      assert arts[1..][i] == arts[i + 1];
    }
  }

  /** What the merge loop leaves behind. Paths apart from both directories
      keep their node. Below the binary directory the regular files are
      those there before plus the targets of the accepted (non-slf4j) file
      entries of the binary jars; below the sources directory, those there
      before plus the targets of the file entries of the attached sources
      jars. An artifact without a sources jar contributes no sources. */
  lemma {:induction false} MergedEffect(fs: FS, fatDir: Path, fatSourcesDir: Path, arts: seq<Artifact>, q: Path)
    requires Apart(fatDir, fatSourcesDir) && Inputs(fs, fatDir, fatSourcesDir, arts)
    requires Merged(fs, fatDir, fatSourcesDir, arts).Ok?
    ensures var fs' := Merged(fs, fatDir, fatSourcesDir, arts).value;
      && (Apart(q, fatDir) && Apart(q, fatSourcesDir) ==> Agree(fs, fs', q))
      && (IsPrefix(fatDir, q) ==> (IsFile(fs', q) <==> IsFile(fs, q) || BinaryWrites(fs, fatDir, arts, q)))
      && (IsPrefix(fatSourcesDir, q) ==> (IsFile(fs', q) <==> IsFile(fs, q) || SourcesWrites(fs, fatSourcesDir, arts, q)))
    decreases |arts|
  {
    if |arts| > 0 {
      var fs1 := MergeStep(fs, fatDir, fatSourcesDir, arts[0]).value;
      MergeStepEffect(fs, fatDir, fatSourcesDir, arts[0], q);
      StepKeepsInputs(fs, fatDir, fatSourcesDir, arts);
      MergedEffect(fs1, fatDir, fatSourcesDir, arts[1..], q);
      BinaryWritesCons(fs, fs1, fatDir, arts, q);
      SourcesWritesCons(fs, fs1, fatSourcesDir, arts, q);
    }
  }

  /** Splitting off the first artifact of BinaryWrites; the later ones are
      read in a state where their archives read the same. */
  lemma BinaryWritesCons(fs: FS, fs1: FS, fatDir: Path, arts: seq<Artifact>, q: Path)
    requires |arts| > 0
    requires forall i :: 0 <= i < |arts| ==> ReadArchive(fs1, arts[i].jar) == ReadArchive(fs, arts[i].jar)
    ensures BinaryWrites(fs, fatDir, arts, q)
        <==> JarWrites(fs, arts[0].jar, fatDir, SkipSlf4j, q) || BinaryWrites(fs1, fatDir, arts[1..], q)
  {
    if BinaryWrites(fs, fatDir, arts, q) {
      var i :| 0 <= i < |arts| && JarWrites(fs, arts[i].jar, fatDir, SkipSlf4j, q);
      if i > 0 {
        assert arts[1..][i - 1] == arts[i];
        assert JarWrites(fs1, arts[1..][i - 1].jar, fatDir, SkipSlf4j, q);
      }
    }
    if BinaryWrites(fs1, fatDir, arts[1..], q) {
      var i :| 0 <= i < |arts[1..]| && JarWrites(fs1, arts[1..][i].jar, fatDir, SkipSlf4j, q);
      assert arts[1..][i] == arts[i + 1];
      assert JarWrites(fs, arts[i + 1].jar, fatDir, SkipSlf4j, q);
    }
  }

  /** Splitting off the first artifact of SourcesWrites. */
  lemma SourcesWritesCons(fs: FS, fs1: FS, fatSourcesDir: Path, arts: seq<Artifact>, q: Path)
    requires |arts| > 0
    requires forall i :: 0 <= i < |arts| && arts[i].sourcesJar.Some? ==>
               ReadArchive(fs1, arts[i].sourcesJar.value) == ReadArchive(fs, arts[i].sourcesJar.value)
    ensures SourcesWrites(fs, fatSourcesDir, arts, q)
        <==> (arts[0].sourcesJar.Some? && JarWrites(fs, arts[0].sourcesJar.value, fatSourcesDir, AcceptAll, q))
             || SourcesWrites(fs1, fatSourcesDir, arts[1..], q)
  {
    if SourcesWrites(fs, fatSourcesDir, arts, q) {
      var i :| 0 <= i < |arts| && arts[i].sourcesJar.Some?
               && JarWrites(fs, arts[i].sourcesJar.value, fatSourcesDir, AcceptAll, q);
      if i > 0 {
        assert arts[1..][i - 1] == arts[i];
        assert JarWrites(fs1, arts[1..][i - 1].sourcesJar.value, fatSourcesDir, AcceptAll, q);
      }
    }
    if SourcesWrites(fs1, fatSourcesDir, arts[1..], q) {
      var i :| 0 <= i < |arts[1..]| && arts[1..][i].sourcesJar.Some?
               && JarWrites(fs1, arts[1..][i].sourcesJar.value, fatSourcesDir, AcceptAll, q);
      assert arts[1..][i] == arts[i + 1];
      assert JarWrites(fs, arts[i + 1].sourcesJar.value, fatSourcesDir, AcceptAll, q);
    }
  }

  /** Unpacking a turn's sources jar leaves the binary directory alone. */
  lemma SourcesSpareBinaryDir(fs: FS, fs1: FS, fatDir: Path, fatSourcesDir: Path, a: Artifact, q: Path)
    requires Apart(fatDir, fatSourcesDir) && IsPrefix(fatDir, q) && q in fs1
    requires a.sourcesJar.Some? ==>
      && JarInput(fs, fatDir, fatSourcesDir, a.sourcesJar.value)
      && ReadArchive(fs1, a.sourcesJar.value) == ReadArchive(fs, a.sourcesJar.value)
    requires a.sourcesJar.Some? ==> UnzipFile(fs1, a.sourcesJar.value, fatSourcesDir, AcceptAll).Ok?
    ensures a.sourcesJar.Some? ==>
      var fs2 := UnzipFile(fs1, a.sourcesJar.value, fatSourcesDir, AcceptAll).value;
      q in fs2 && fs2[q] == fs1[q]
  {
    if a.sourcesJar.Some? {
      var entries := ReadArchive(fs1, a.sourcesJar.value).value;
      forall m | 0 <= m < |entries|
        ensures !Writes(fatSourcesDir, entries[m], AcceptAll, q)
      {
        WritesBelow(fatSourcesDir, fatDir, entries[m], AcceptAll, q);
      }
      UnzippedKeeps(fs1, fatSourcesDir, entries, AcceptAll, q);
    }
  }

  /** A file of the binary directory that a turn's jar does not write keeps
      its node. */
  lemma MergeStepKeeps(fs: FS, fatDir: Path, fatSourcesDir: Path, a: Artifact, q: Path)
    requires Apart(fatDir, fatSourcesDir) && IsPrefix(fatDir, q) && q in fs
    requires JarInput(fs, fatDir, fatSourcesDir, a.jar)
    requires a.sourcesJar.Some? ==> JarInput(fs, fatDir, fatSourcesDir, a.sourcesJar.value)
    requires MergeStep(fs, fatDir, fatSourcesDir, a).Ok?
    requires !JarWrites(fs, a.jar, fatDir, SkipSlf4j, q)
    ensures var fs' := MergeStep(fs, fatDir, fatSourcesDir, a).value; q in fs' && fs'[q] == fs[q]
  {
    var entries := ReadArchive(fs, a.jar).value;
    UnzippedKeeps(fs, fatDir, entries, SkipSlf4j, q);
    var fs1 := UnzipFile(fs, a.jar, fatDir, SkipSlf4j).value;
    if a.sourcesJar.Some? {
      UnzipFileFrame(fs, a.jar, fatDir, SkipSlf4j, a.sourcesJar.value);
      ReadAgrees(fs, fs1, a.sourcesJar.value);
    }
    SourcesSpareBinaryDir(fs, fs1, fatDir, fatSourcesDir, a, q);
  }

  /** A turn's jar leaves at `q` the content of its last entry written
      there. */
  lemma MergeStepLast(fs: FS, fatDir: Path, fatSourcesDir: Path, a: Artifact, q: Path, k: nat)
    requires Apart(fatDir, fatSourcesDir) && IsPrefix(fatDir, q)
    requires JarInput(fs, fatDir, fatSourcesDir, a.jar)
    requires a.sourcesJar.Some? ==> JarInput(fs, fatDir, fatSourcesDir, a.sourcesJar.value)
    requires MergeStep(fs, fatDir, fatSourcesDir, a).Ok?
    requires var entries := ReadArchive(fs, a.jar).value;
      && k < |entries| && Writes(fatDir, entries[k], SkipSlf4j, q)
      && forall m :: k < m < |entries| ==> !Writes(fatDir, entries[m], SkipSlf4j, q)
    ensures var fs' := MergeStep(fs, fatDir, fatSourcesDir, a).value;
      q in fs' && fs'[q] == File(ReadArchive(fs, a.jar).value[k].data, true)
  {
    var entries := ReadArchive(fs, a.jar).value;
    UnzippedLastWriter(fs, fatDir, entries, SkipSlf4j, k);
    var fs1 := UnzipFile(fs, a.jar, fatDir, SkipSlf4j).value;
    if a.sourcesJar.Some? {
      UnzipFileFrame(fs, a.jar, fatDir, SkipSlf4j, a.sourcesJar.value);
      ReadAgrees(fs, fs1, a.sourcesJar.value);
    }
    SourcesSpareBinaryDir(fs, fs1, fatDir, fatSourcesDir, a, q);
  }

  /** A file of the binary directory that no jar of the loop writes keeps
      its node. */
  lemma {:induction false} MergedKeeps(fs: FS, fatDir: Path, fatSourcesDir: Path, arts: seq<Artifact>, q: Path)
    requires Apart(fatDir, fatSourcesDir) && Inputs(fs, fatDir, fatSourcesDir, arts)
    requires Merged(fs, fatDir, fatSourcesDir, arts).Ok? && IsPrefix(fatDir, q) && q in fs
    requires forall i :: 0 <= i < |arts| ==> !JarWrites(fs, arts[i].jar, fatDir, SkipSlf4j, q)
    ensures var fs' := Merged(fs, fatDir, fatSourcesDir, arts).value; q in fs' && fs'[q] == fs[q]
    decreases |arts|
  {
    if |arts| > 0 {
      var fs1 := MergeStep(fs, fatDir, fatSourcesDir, arts[0]).value;
      MergeStepKeeps(fs, fatDir, fatSourcesDir, arts[0], q);
      StepKeepsInputs(fs, fatDir, fatSourcesDir, arts);
      forall i | 0 <= i < |arts[1..]|
        ensures !JarWrites(fs1, arts[1..][i].jar, fatDir, SkipSlf4j, q)
      {
        assert arts[1..][i] == arts[i + 1];
      }
      MergedKeeps(fs1, fatDir, fatSourcesDir, arts[1..], q);
    }
  }

  /** Later jars win: a file of the merged binary directory holds what the
      last entry written there by the last jar of the working set that
      writes there holds. */
  lemma {:induction false} MergedLastWriter(fs: FS, fatDir: Path, fatSourcesDir: Path, arts: seq<Artifact>,
                                            q: Path, j: nat, k: nat)
    requires Apart(fatDir, fatSourcesDir) && Inputs(fs, fatDir, fatSourcesDir, arts)
    requires Merged(fs, fatDir, fatSourcesDir, arts).Ok? && IsPrefix(fatDir, q)
    requires j < |arts| && ReadArchive(fs, arts[j].jar).Ok?
    requires var entries := ReadArchive(fs, arts[j].jar).value;
      && k < |entries| && Writes(fatDir, entries[k], SkipSlf4j, q)
      && forall m :: k < m < |entries| ==> !Writes(fatDir, entries[m], SkipSlf4j, q)
    requires forall i :: j < i < |arts| ==> !JarWrites(fs, arts[i].jar, fatDir, SkipSlf4j, q)
    ensures var fs' := Merged(fs, fatDir, fatSourcesDir, arts).value;
      q in fs' && fs'[q] == File(ReadArchive(fs, arts[j].jar).value[k].data, true)
    decreases |arts|
  {
    var fs1 := MergeStep(fs, fatDir, fatSourcesDir, arts[0]).value;
    StepKeepsInputs(fs, fatDir, fatSourcesDir, arts);
    forall i | 0 <= i < |arts[1..]| && j < i + 1
      ensures !JarWrites(fs1, arts[1..][i].jar, fatDir, SkipSlf4j, q)
    {
      assert arts[1..][i] == arts[i + 1];
    }
    if j == 0 {
      MergeStepLast(fs, fatDir, fatSourcesDir, arts[0], q, k);
      MergedKeeps(fs1, fatDir, fatSourcesDir, arts[1..], q);
    } else {
      assert arts[1..][j - 1] == arts[j];
      MergedLastWriter(fs1, fatDir, fatSourcesDir, arts[1..], q, j - 1, k);
    }
  }

  /** target/gradle-all and target/gradle-all-sources are apart. */
  lemma MergeDirsApart(target: Path)
    ensures Apart(FatJarDir(target), FatSourcesDir(target))
  {
    assert FatJarDir(target)[|target|] != FatSourcesDir(target)[|target|];
  }

  /** Archives that read the same in two states write the same files. */
  lemma SameReads(fs: FS, fs': FS, fatDir: Path, fatSourcesDir: Path, arts: seq<Artifact>, q: Path)
    requires forall i :: 0 <= i < |arts| ==> ReadArchive(fs', arts[i].jar) == ReadArchive(fs, arts[i].jar)
    requires forall i :: 0 <= i < |arts| && arts[i].sourcesJar.Some? ==>
               ReadArchive(fs', arts[i].sourcesJar.value) == ReadArchive(fs, arts[i].sourcesJar.value)
    ensures Inputs(fs, fatDir, fatSourcesDir, arts) ==> Inputs(fs', fatDir, fatSourcesDir, arts)
    ensures BinaryWrites(fs', fatDir, arts, q) <==> BinaryWrites(fs, fatDir, arts, q)
    ensures SourcesWrites(fs', fatSourcesDir, arts, q) <==> SourcesWrites(fs, fatSourcesDir, arts, q)
  {
    if BinaryWrites(fs', fatDir, arts, q) {
      var i :| 0 <= i < |arts| && JarWrites(fs', arts[i].jar, fatDir, SkipSlf4j, q);
      assert JarWrites(fs, arts[i].jar, fatDir, SkipSlf4j, q);
    }
    if BinaryWrites(fs, fatDir, arts, q) {
      var i :| 0 <= i < |arts| && JarWrites(fs, arts[i].jar, fatDir, SkipSlf4j, q);
      assert JarWrites(fs', arts[i].jar, fatDir, SkipSlf4j, q);
    }
    if SourcesWrites(fs', fatSourcesDir, arts, q) {
      var i :| 0 <= i < |arts| && arts[i].sourcesJar.Some?
               && JarWrites(fs', arts[i].sourcesJar.value, fatSourcesDir, AcceptAll, q);
      assert JarWrites(fs, arts[i].sourcesJar.value, fatSourcesDir, AcceptAll, q);
    }
    if SourcesWrites(fs, fatSourcesDir, arts, q) {
      var i :| 0 <= i < |arts| && arts[i].sourcesJar.Some?
               && JarWrites(fs, arts[i].sourcesJar.value, fatSourcesDir, AcceptAll, q);
      assert JarWrites(fs', arts[i].sourcesJar.value, fatSourcesDir, AcceptAll, q);
    }
  }

  /** The state after both directories are reset: each exists, is a
      directory and holds nothing, and every path apart from both keeps
      its node. The resets succeed whenever `target` is a directory. */
  lemma MergeDirsFresh(fs: FS, target: Path)
    requires WellFormed(fs)
    ensures IsDir(fs, target) ==> Recreated(fs, FatJarDir(target)).Ok?
    ensures Recreated(fs, FatJarDir(target)).Ok? ==>
      var fs1 := Recreated(fs, FatJarDir(target)).value;
      && Recreated(fs1, FatSourcesDir(target)).Ok?
      && var fs2 := Recreated(fs1, FatSourcesDir(target)).value;
      && WellFormed(fs2)
      && FatJarDir(target) in fs2 && fs2[FatJarDir(target)] == Dir
      && FatSourcesDir(target) in fs2 && fs2[FatSourcesDir(target)] == Dir
      && (forall q :: q in fs2 && IsPrefix(FatJarDir(target), q) ==> q == FatJarDir(target))
      && (forall q :: q in fs2 && IsPrefix(FatSourcesDir(target), q) ==> q == FatSourcesDir(target))
      && (forall q :: !IsPrefix(FatJarDir(target), q) && !IsPrefix(FatSourcesDir(target), q) ==> Agree(fs, fs2, q))
  {
    var fatDir, srcDir := FatJarDir(target), FatSourcesDir(target);
    assert Parent(fatDir) == target && Parent(srcDir) == target;
    RecreatedEmpty(fs, fatDir);
    if Recreated(fs, fatDir).Ok? {
      var fs1 := Recreated(fs, fatDir).value;
      RecreatedWellFormed(fs, fatDir);
      MergeDirsApart(target);
      assert Agree(fs, fs1, target);
      assert IsDir(fs1, target);
      RecreatedEmpty(fs1, srcDir);
      var fs2 := Recreated(fs1, srcDir).value;
      RecreatedWellFormed(fs1, srcDir);
      assert Agree(fs1, fs2, fatDir);
      forall q | q in fs2 && IsPrefix(fatDir, q)
        ensures q == fatDir
      {
        if IsPrefix(srcDir, q) {
          CommonPrefix(fatDir, srcDir, q);
        }
        assert Agree(fs1, fs2, q);
      }
    }
  }

  /** The state after both resets and the merge loop, before packing. */
  function MergedState(fs: FS, target: Path, arts: seq<Artifact>): Result<FS> {
    var fs1 :- Recreated(fs, FatJarDir(target));
    var fs2 :- Recreated(fs1, FatSourcesDir(target));
    Merged(fs2, FatJarDir(target), FatSourcesDir(target), arts)
  }

  /** Before packing, the binary directory holds a regular file exactly
      where some binary jar of the working set has a file entry outside
      org/slf4j/, and the sources directory exactly where some attached
      sources jar has a file entry: nothing survives from an earlier run,
      no slf4j class is merged, and an artifact without sources
      contributes none. Paths apart from both directories keep their node. */
  lemma MergedStateFiles(fs: FS, target: Path, arts: seq<Artifact>, q: Path)
    requires WellFormed(fs) && Inputs(fs, FatJarDir(target), FatSourcesDir(target), arts)
    requires MergedState(fs, target, arts).Ok?
    ensures var fs3 := MergedState(fs, target, arts).value;
      && (IsPrefix(FatJarDir(target), q) ==> (IsFile(fs3, q) <==> BinaryWrites(fs, FatJarDir(target), arts, q)))
      && (IsPrefix(FatSourcesDir(target), q) ==> (IsFile(fs3, q) <==> SourcesWrites(fs, FatSourcesDir(target), arts, q)))
      && (Apart(q, FatJarDir(target)) && Apart(q, FatSourcesDir(target)) ==> Agree(fs, fs3, q))
  {
    var fatDir, srcDir := FatJarDir(target), FatSourcesDir(target);
    MergeDirsApart(target);
    MergeDirsFresh(fs, target);
    var fs1 := Recreated(fs, fatDir).value;
    var fs2 := Recreated(fs1, srcDir).value;
    forall i | 0 <= i < |arts|
      ensures ReadArchive(fs2, arts[i].jar) == ReadArchive(fs, arts[i].jar)
      ensures arts[i].sourcesJar.Some? ==>
                ReadArchive(fs2, arts[i].sourcesJar.value) == ReadArchive(fs, arts[i].sourcesJar.value)
    {
      ReadAgrees(fs, fs2, arts[i].jar);
      if arts[i].sourcesJar.Some? {
        ReadAgrees(fs, fs2, arts[i].sourcesJar.value);
      }
    }
    SameReads(fs, fs2, fatDir, srcDir, arts, q);
    MergedEffect(fs2, fatDir, srcDir, arts, q);
    if Apart(q, fatDir) && Apart(q, srcDir) {
      assert Agree(fs, fs2, q);
    }
  }

  /** The merged jars' own names are plain file names in `target`, apart
      from both merge directories and from each other. */
  lemma FatJarPaths(target: Path, version: string)
    requires '/' !in version
    ensures FatJarPath(target, version) == target + ["gradle-all-" + version + ".jar"]
    ensures FatSourcesJarPath(target, version) == target + ["gradle-all-" + version + "-sources.jar"]
    ensures FatJarPath(target, version) != FatSourcesJarPath(target, version)
    ensures Apart(FatJarPath(target, version), FatJarDir(target))
    ensures Apart(FatJarPath(target, version), FatSourcesDir(target))
    ensures Apart(FatSourcesJarPath(target, version), FatJarDir(target))
    ensures Apart(FatSourcesJarPath(target, version), FatSourcesDir(target))
  {
    var jar, sources := "gradle-all-" + version + ".jar", "gradle-all-" + version + "-sources.jar";
    assert '/' !in jar && '/' !in sources;
    ResolvePlain(target, jar);
    ResolvePlain(target, sources);
    assert |jar| != |sources|;
    assert jar != "gradle-all" && sources != "gradle-all";
    assert jar[|jar| - 1] == 'r' && sources[|sources| - 1] == 'r';
    assert jar != "gradle-all-sources" && sources != "gradle-all-sources";
    assert (target + [jar])[|target|] == jar && (target + [sources])[|target|] == sources;
  }

  /** The hook is the merge followed by packing both directories. */
  lemma PostProcessStages(fs: FS, target: Path, arts: seq<Artifact>, version: string,
                          walk: seq<Path>, sourcesWalk: seq<Path>)
    requires PostProcessResult(fs, target, arts, version, walk, sourcesWalk).Ok?
    ensures MergedState(fs, target, arts).Ok?
    ensures var fs3 := MergedState(fs, target, arts).value;
      && ZipDirectoryResult(fs3, FatJarPath(target, version), FatJarDir(target), walk).Ok?
      && var fs4 := ZipDirectoryResult(fs3, FatJarPath(target, version), FatJarDir(target), walk).value;
      && PostProcessResult(fs, target, arts, version, walk, sourcesWalk)
         == ZipDirectoryResult(fs4, FatSourcesJarPath(target, version), FatSourcesDir(target), sourcesWalk)
  {
  }

  /** zipDirectory names its entries after the regular files below the
      packed directory, relative to it, when the jar lies outside it. */
  lemma PackedNames(fs: FS, jar: Path, dir: Path, walk: seq<Path>, name: string)
    requires ZipDirectoryResult(fs, jar, dir, walk).Ok? && !IsPrefix(dir, jar)
    ensures var fs' := ZipDirectoryResult(fs, jar, dir, walk).value;
      && ReadArchive(fs', jar).Ok?
      && DistinctNames(ReadArchive(fs', jar).value)
      && (name in Names(ReadArchive(fs', jar).value)
          <==> exists q :: IsPrefix(dir, q) && IsFile(fs, q) && name == EntryName(q[|dir|..]))
  {
    ZipDirectoryArchive(fs, jar, dir, walk);
    var entries := ReadArchive(ZipDirectoryResult(fs, jar, dir, walk).value, jar).value;
    var fs1 := fs[jar := File([], true)];
    if name in Names(entries) {
      var i :| 0 <= i < |entries| && entries[i].name == name;
      ZipDirectoryEntries(fs, jar, dir, walk, entries[i]);
      var q :| q in Subtree(fs1, dir) && IsFile(fs1, q) && entries[i] == EntryFor(fs1, dir, q);
      assert IsFile(fs, q);
    }
    if exists q :: IsPrefix(dir, q) && IsFile(fs, q) && name == EntryName(q[|dir|..]) {
      var q :| IsPrefix(dir, q) && IsFile(fs, q) && name == EntryName(q[|dir|..]);
      assert q in Subtree(fs1, dir) && IsFile(fs1, q);
      var e := EntryFor(fs1, dir, q);
      ZipDirectoryEntries(fs, jar, dir, walk, e);
      var i :| 0 <= i < |entries| && entries[i] == e;
    }
  }

  /** The merged binary jar holds an entry named after each file some
      binary jar of the working set put into the binary directory (its path
      relative to that directory), and no other entry: in particular no
      org/slf4j/ entry of any jar and nothing left from an earlier run. */
  lemma FatJarNames(fs: FS, target: Path, arts: seq<Artifact>, version: string,
                    walk: seq<Path>, sourcesWalk: seq<Path>, name: string)
    requires WellFormed(fs) && '/' !in version
    requires Inputs(fs, FatJarDir(target), FatSourcesDir(target), arts)
    requires PostProcessResult(fs, target, arts, version, walk, sourcesWalk).Ok?
    ensures var fs' := PostProcessResult(fs, target, arts, version, walk, sourcesWalk).value;
      var fatDir := FatJarDir(target);
      && ReadArchive(fs', FatJarPath(target, version)).Ok?
      && DistinctNames(ReadArchive(fs', FatJarPath(target, version)).value)
      && (name in Names(ReadArchive(fs', FatJarPath(target, version)).value)
          <==> exists q :: IsPrefix(fatDir, q) && BinaryWrites(fs, fatDir, arts, q) && name == EntryName(q[|fatDir|..]))
  {
    var fatDir, srcDir := FatJarDir(target), FatSourcesDir(target);
    var fatJar, srcJar := FatJarPath(target, version), FatSourcesJarPath(target, version);
    FatJarPaths(target, version);
    PostProcessStages(fs, target, arts, version, walk, sourcesWalk);
    var fs3 := MergedState(fs, target, arts).value;
    var fs4 := ZipDirectoryResult(fs3, fatJar, fatDir, walk).value;
    ZipDirectoryArchive(fs4, srcJar, srcDir, sourcesWalk);
    ReadAgrees(fs4, ZipDirectoryResult(fs4, srcJar, srcDir, sourcesWalk).value, fatJar);
    PackedNames(fs3, fatJar, fatDir, walk, name);
    if exists q :: IsPrefix(fatDir, q) && IsFile(fs3, q) && name == EntryName(q[|fatDir|..]) {
      var q :| IsPrefix(fatDir, q) && IsFile(fs3, q) && name == EntryName(q[|fatDir|..]);
      MergedStateFiles(fs, target, arts, q);
    }
    if exists q :: IsPrefix(fatDir, q) && BinaryWrites(fs, fatDir, arts, q) && name == EntryName(q[|fatDir|..]) {
      var q :| IsPrefix(fatDir, q) && BinaryWrites(fs, fatDir, arts, q) && name == EntryName(q[|fatDir|..]);
      MergedStateFiles(fs, target, arts, q);
    }
  }

  /** The merged sources jar holds an entry named after each file some
      attached sources jar put into the sources directory, and no other
      entry. */
  lemma FatSourcesJarNames(fs: FS, target: Path, arts: seq<Artifact>, version: string,
                           walk: seq<Path>, sourcesWalk: seq<Path>, name: string)
    requires WellFormed(fs) && '/' !in version
    requires Inputs(fs, FatJarDir(target), FatSourcesDir(target), arts)
    requires PostProcessResult(fs, target, arts, version, walk, sourcesWalk).Ok?
    ensures var fs' := PostProcessResult(fs, target, arts, version, walk, sourcesWalk).value;
      var srcDir := FatSourcesDir(target);
      && ReadArchive(fs', FatSourcesJarPath(target, version)).Ok?
      && DistinctNames(ReadArchive(fs', FatSourcesJarPath(target, version)).value)
      && (name in Names(ReadArchive(fs', FatSourcesJarPath(target, version)).value)
          <==> exists q :: IsPrefix(srcDir, q) && SourcesWrites(fs, srcDir, arts, q) && name == EntryName(q[|srcDir|..]))
  {
    var fatDir, srcDir := FatJarDir(target), FatSourcesDir(target);
    var fatJar, srcJar := FatJarPath(target, version), FatSourcesJarPath(target, version);
    FatJarPaths(target, version);
    PostProcessStages(fs, target, arts, version, walk, sourcesWalk);
    var fs3 := MergedState(fs, target, arts).value;
    var fs4 := ZipDirectoryResult(fs3, fatJar, fatDir, walk).value;
    ZipDirectoryArchive(fs3, fatJar, fatDir, walk);
    PackedNames(fs4, srcJar, srcDir, sourcesWalk, name);
    if exists q :: IsPrefix(srcDir, q) && IsFile(fs4, q) && name == EntryName(q[|srcDir|..]) {
      var q :| IsPrefix(srcDir, q) && IsFile(fs4, q) && name == EntryName(q[|srcDir|..]);
      assert q != fatJar;
      assert Agree(fs3, fs4, q);
      MergedStateFiles(fs, target, arts, q);
    }
    if exists q :: IsPrefix(srcDir, q) && SourcesWrites(fs, srcDir, arts, q) && name == EntryName(q[|srcDir|..]) {
      var q :| IsPrefix(srcDir, q) && SourcesWrites(fs, srcDir, arts, q) && name == EntryName(q[|srcDir|..]);
      MergedStateFiles(fs, target, arts, q);
      assert q != fatJar;
      assert Agree(fs3, fs4, q);
    }
  }

  /** Every regular-file entry of the archive at `jar` has a canonical name. */
  predicate CanonicalFiles(fs: FS, jar: Path) {
    ReadArchive(fs, jar).Ok? ==>
      forall e :: e in ReadArchive(fs, jar).value && !e.IsDirectory() ==> CanonicalName(e.name)
  }

  /** The archive at `jar` holds a regular-file entry named `name` that
      `skip` accepts. */
  predicate Contributes(fs: FS, jar: Path, skip: string -> bool, name: string) {
    && ReadArchive(fs, jar).Ok?
    && exists e :: e in ReadArchive(fs, jar).value && !skip(e.name) && !e.IsDirectory() && e.name == name
  }

  /** With canonical names, the names of the files a jar extracts below a
      directory, taken relative to it, are that jar's accepted file names. */
  lemma WrittenNames(fs: FS, jar: Path, dir: Path, skip: string -> bool, name: string)
    requires CanonicalFiles(fs, jar)
    ensures (exists q :: IsPrefix(dir, q) && JarWrites(fs, jar, dir, skip, q) && name == EntryName(q[|dir|..]))
        <==> Contributes(fs, jar, skip, name)
  {
    if exists q :: IsPrefix(dir, q) && JarWrites(fs, jar, dir, skip, q) && name == EntryName(q[|dir|..]) {
      var q :| IsPrefix(dir, q) && JarWrites(fs, jar, dir, skip, q) && name == EntryName(q[|dir|..]);
      var entries := ReadArchive(fs, jar).value;
      var k :| 0 <= k < |entries| && Writes(dir, entries[k], skip, q);
      assert entries[k] in entries;
      CanonicalNameResolves(dir, entries[k].name);
    }
    if Contributes(fs, jar, skip, name) {
      var entries := ReadArchive(fs, jar).value;
      var e :| e in entries && !skip(e.name) && !e.IsDirectory() && e.name == name;
      var k :| 0 <= k < |entries| && entries[k] == e;
      CanonicalNameResolves(dir, name);
      var q := Resolve(dir, name);
      assert Writes(dir, entries[k], skip, q);
      assert JarWrites(fs, jar, dir, skip, q);
    }
  }

  /** When the binary jars name their files canonically, the merged binary
      jar's entry names are exactly the regular-file names outside
      org/slf4j/ of the working set's binary jars, each once. */
  lemma FatJarEntryNames(fs: FS, target: Path, arts: seq<Artifact>, version: string,
                         walk: seq<Path>, sourcesWalk: seq<Path>, name: string)
    requires WellFormed(fs) && '/' !in version
    requires Inputs(fs, FatJarDir(target), FatSourcesDir(target), arts)
    requires forall i :: 0 <= i < |arts| ==> CanonicalFiles(fs, arts[i].jar)
    requires PostProcessResult(fs, target, arts, version, walk, sourcesWalk).Ok?
    ensures var fs' := PostProcessResult(fs, target, arts, version, walk, sourcesWalk).value;
      && ReadArchive(fs', FatJarPath(target, version)).Ok?
      && DistinctNames(ReadArchive(fs', FatJarPath(target, version)).value)
      && (name in Names(ReadArchive(fs', FatJarPath(target, version)).value)
          <==> exists i :: 0 <= i < |arts| && Contributes(fs, arts[i].jar, SkipSlf4j, name))
  {
    var fatDir := FatJarDir(target);
    FatJarNames(fs, target, arts, version, walk, sourcesWalk, name);
    if exists q :: IsPrefix(fatDir, q) && BinaryWrites(fs, fatDir, arts, q) && name == EntryName(q[|fatDir|..]) {
      var q :| IsPrefix(fatDir, q) && BinaryWrites(fs, fatDir, arts, q) && name == EntryName(q[|fatDir|..]);
      var i :| 0 <= i < |arts| && JarWrites(fs, arts[i].jar, fatDir, SkipSlf4j, q);
      WrittenNames(fs, arts[i].jar, fatDir, SkipSlf4j, name);
    }
    if exists i :: 0 <= i < |arts| && Contributes(fs, arts[i].jar, SkipSlf4j, name) {
      var i :| 0 <= i < |arts| && Contributes(fs, arts[i].jar, SkipSlf4j, name);
      WrittenNames(fs, arts[i].jar, fatDir, SkipSlf4j, name);
      var q :| IsPrefix(fatDir, q) && JarWrites(fs, arts[i].jar, fatDir, SkipSlf4j, q) && name == EntryName(q[|fatDir|..]);
      assert BinaryWrites(fs, fatDir, arts, q);
    }
  }

  /** When the attached sources jars name their files canonically, the
      merged sources jar's entry names are exactly their regular-file
      names, each once. */
  lemma FatSourcesJarEntryNames(fs: FS, target: Path, arts: seq<Artifact>, version: string,
                                walk: seq<Path>, sourcesWalk: seq<Path>, name: string)
    requires WellFormed(fs) && '/' !in version
    requires Inputs(fs, FatJarDir(target), FatSourcesDir(target), arts)
    requires forall i :: 0 <= i < |arts| && arts[i].sourcesJar.Some? ==> CanonicalFiles(fs, arts[i].sourcesJar.value)
    requires PostProcessResult(fs, target, arts, version, walk, sourcesWalk).Ok?
    ensures var fs' := PostProcessResult(fs, target, arts, version, walk, sourcesWalk).value;
      && ReadArchive(fs', FatSourcesJarPath(target, version)).Ok?
      && DistinctNames(ReadArchive(fs', FatSourcesJarPath(target, version)).value)
      && (name in Names(ReadArchive(fs', FatSourcesJarPath(target, version)).value)
          <==> exists i :: 0 <= i < |arts| && arts[i].sourcesJar.Some?
                 && Contributes(fs, arts[i].sourcesJar.value, AcceptAll, name))
  {
    var srcDir := FatSourcesDir(target);
    FatSourcesJarNames(fs, target, arts, version, walk, sourcesWalk, name);
    if exists q :: IsPrefix(srcDir, q) && SourcesWrites(fs, srcDir, arts, q) && name == EntryName(q[|srcDir|..]) {
      var q :| IsPrefix(srcDir, q) && SourcesWrites(fs, srcDir, arts, q) && name == EntryName(q[|srcDir|..]);
      var i :| 0 <= i < |arts| && arts[i].sourcesJar.Some? && JarWrites(fs, arts[i].sourcesJar.value, srcDir, AcceptAll, q);
      WrittenNames(fs, arts[i].sourcesJar.value, srcDir, AcceptAll, name);
    }
    if exists i :: 0 <= i < |arts| && arts[i].sourcesJar.Some? && Contributes(fs, arts[i].sourcesJar.value, AcceptAll, name) {
      var i :| 0 <= i < |arts| && arts[i].sourcesJar.Some? && Contributes(fs, arts[i].sourcesJar.value, AcceptAll, name);
      WrittenNames(fs, arts[i].sourcesJar.value, srcDir, AcceptAll, name);
      var q :| IsPrefix(srcDir, q) && JarWrites(fs, arts[i].sourcesJar.value, srcDir, AcceptAll, q) && name == EntryName(q[|srcDir|..]);
      assert SourcesWrites(fs, srcDir, arts, q);
    }
  }
}
