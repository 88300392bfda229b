/** Main.main, the first entry point: the same pipeline as Deployer.run
    without a post-processing hook, with its own download name, an unzip
    that neither creates missing parent directories nor tolerates a
    directory that already exists, and a sources packer that skips the
    files it cannot read or cannot add. */
module LegacyMain {
  import opened Base
  import opened Text
  import opened Paths
  import opened FileTree
  import opened Archive
  import opened Io
  import opened ArchiveCodec
  import opened Naming
  import opened Artifacts
  import Deployer
  import ArchiveLaws

  /** target/gradle-distribuition.zip, the name Main stores the download
      under. */
  function DistributionZip(target: Path): Path {
    target + ["gradle-distribuition.zip"]
  }

  /** One turn of Main.unzip: an entry whose name mentions "examples" is
      skipped, a file entry is written where it resolves (its parent must
      already be a directory), a directory entry is always created. */
  function UnzipStep(fs: FS, extractTo: Path, e: ZipEntry): Result<FS> {
    if Contains(e.name, "examples") then Ok(fs)
    else
      var filePath := Resolve(extractTo, e.name);
      if !e.IsDirectory() then WriteFile(fs, filePath, e.data)
      else CreateDirectory(fs, filePath)
  }

  /** Main.unzip's loop over the entries, in archive order. */
  function Unzipped(fs: FS, extractTo: Path, entries: seq<ZipEntry>): Result<FS>
    decreases |entries|
  {
    if |entries| == 0 then Ok(fs)
    else
      var fs1 :- UnzipStep(fs, extractTo, entries[0]);
      Unzipped(fs1, extractTo, entries[1..])
  }

  /** Main.unzip(zipFilePath, extractTo) */
  function UnzipFile(fs: FS, zipFilePath: Path, extractTo: Path): Result<FS> {
    var entries :- ReadArchive(fs, zipFilePath);
    Unzipped(fs, extractTo, entries)
  }

  /** Where Main's step succeeds, Deployer's step with the "examples"
      filter does the same. */
  lemma UnzipStepRefined(fs: FS, extractTo: Path, e: ZipEntry)
    requires UnzipStep(fs, extractTo, e).Ok?
    ensures ArchiveCodec.UnzipStep(fs, extractTo, e, Deployer.SkipExamples) == UnzipStep(fs, extractTo, e)
  {
    var filePath := Resolve(extractTo, e.name);
    if !Contains(e.name, "examples") && !e.IsDirectory() {
      assert IsDir(fs, Parent(filePath));
    }
  }

  /** Where Main's unzip succeeds, Deployer's unzip with the "examples"
      filter leaves the same file system. */
  lemma {:induction false} UnzippedRefined(fs: FS, extractTo: Path, entries: seq<ZipEntry>)
    requires Unzipped(fs, extractTo, entries).Ok?
    ensures ArchiveCodec.Unzipped(fs, extractTo, entries, Deployer.SkipExamples) == Unzipped(fs, extractTo, entries)
    decreases |entries|
  {
    if |entries| > 0 {
      UnzipStepRefined(fs, extractTo, entries[0]);
      UnzippedRefined(UnzipStep(fs, extractTo, entries[0]).value, extractTo, entries[1..]);
    }
  }

  /** A directory entry for a path that already exists stops Main's unzip
      with FileAlreadyExists, while Deployer's unzip passes over it. */
  lemma ExistingDirectoryRejected(fs: FS, extractTo: Path, e: ZipEntry)
    requires !Contains(e.name, "examples") && e.IsDirectory() && Exists(fs, Resolve(extractTo, e.name))
    ensures UnzipStep(fs, extractTo, e) == Err(FileAlreadyExists(Resolve(extractTo, e.name)))
    ensures ArchiveCodec.UnzipStep(fs, extractTo, e, Deployer.SkipExamples) == Ok(fs)
  {
  }

  /** A file entry whose parent directory is missing stops Main's unzip,
      while Deployer's unzip creates the parents and writes the file. */
  lemma MissingParentRejected(fs: FS, extractTo: Path, e: ZipEntry)
    requires !Contains(e.name, "examples") && !e.IsDirectory()
    requires WellFormed(fs)
    requires var filePath := Resolve(extractTo, e.name);
      |filePath| > 0 && !Exists(fs, Parent(filePath)) && NoFileOnPath(fs, Parent(filePath))
    ensures UnzipStep(fs, extractTo, e) == Err(NoSuchFile(Resolve(extractTo, e.name)))
    ensures ArchiveCodec.UnzipStep(fs, extractTo, e, Deployer.SkipExamples).Ok?
  {
    var filePath := Resolve(extractTo, e.name);
    var parent := Parent(filePath);
    assert forall k :: 0 < k <= |parent| ==> parent[..k] == filePath[..k];
    var fs1 := CreateDirectories(fs, parent).value;
    assert filePath !in fs;
  }

  /** Main.extractFile: opens the output stream on `filePath` (its parent
      must exist) and copies the current entry into it. */
  method ExtractFile(fs: FileSystem, zipIn: ZipIn, filePath: Path) returns (r: Outcome)
    requires 0 < zipIn.next <= |zipIn.entries| && zipIn.pos == 0
    modifies fs, zipIn
    ensures zipIn.next == old(zipIn.next)
    ensures r == StatusOf(WriteFile(old(fs.nodes), filePath, zipIn.entries[zipIn.next - 1].data))
    ensures r.Pass? ==> fs.nodes == WriteFile(old(fs.nodes), filePath, zipIn.entries[zipIn.next - 1].data).value
  {
    r := fs.NewOutputStream(filePath);
    if r.Fail? {
      return;
    }
    var written := CopyEntry(zipIn);
    fs.Store(filePath, written);
    r := Pass;
  }

  /** The body of unzip's loop for the current entry, whose name is
      `name`. */
  method UnzipEntry(fs: FileSystem, zipIn: ZipIn, extractTo: Path, name: string) returns (r: Outcome)
    requires 0 < zipIn.next <= |zipIn.entries| && zipIn.pos == 0 && name == zipIn.entries[zipIn.next - 1].name
    modifies fs, zipIn
    ensures zipIn.next == old(zipIn.next)
    ensures r == StatusOf(UnzipStep(old(fs.nodes), extractTo, zipIn.entries[zipIn.next - 1]))
    ensures r.Pass? ==> fs.nodes == UnzipStep(old(fs.nodes), extractTo, zipIn.entries[zipIn.next - 1]).value
  {
    if Contains(name, "examples") {
      r := Pass;
    } else {
      var filePath := Resolve(extractTo, name);
      if !EndsWith(name, "/") {
        r := ExtractFile(fs, zipIn, filePath);
      } else {
        r := fs.CreateDirectory(filePath);
      }
    }
  }

  /** Main.unzip */
  method Unzip(fs: FileSystem, zipFilePath: Path, extractTo: Path) returns (r: Outcome)
    modifies fs
    ensures r == StatusOf(UnzipFile(old(fs.nodes), zipFilePath, extractTo))
    ensures r.Pass? ==> fs.nodes == UnzipFile(old(fs.nodes), zipFilePath, extractTo).value
  {
    var zipIn :- fs.OpenZip(zipFilePath);
    ghost var entries := zipIn.entries;
    ghost var spec := Unzipped(fs.nodes, extractTo, entries);
    var entry := zipIn.GetNextEntry();
    while entry.Some?
      invariant zipIn.entries == entries && zipIn.next <= |entries|
      invariant entry.Some? ==> 0 < zipIn.next && entry.value == entries[zipIn.next - 1].name && zipIn.pos == 0
      invariant entry.None? ==> zipIn.next == |entries|
      invariant spec == Unzipped(fs.nodes, extractTo, entries[(if entry.Some? then zipIn.next - 1 else zipIn.next)..])
      decreases |entries| - zipIn.next + (if entry.Some? then 1 else 0)
    {
      ghost var k := zipIn.next - 1;
      assert entries[k..][1..] == entries[k + 1..];
      :- UnzipEntry(fs, zipIn, extractTo, entry.value);
      entry := zipIn.GetNextEntry();
    }
    r := Pass;
  }

  /** One path of Main's inline sources packer: a directory adds nothing;
      a file that cannot be read, or whose name is already in the jar, is
      skipped (the IOException is printed and swallowed); any other file
      is added under its relative name. */
  function LenientPackStep(fs: FS, jarSource: Path, p: Path, entries: seq<ZipEntry>): seq<ZipEntry>
    requires IsPrefix(jarSource, p)
  {
    if IsDir(fs, p) then entries
    else match ReadFile(fs, p)
      case Err(_) => entries
      case Ok(data) =>
        var name := EntryName(p[|jarSource|..]);
        if name in Names(entries) then entries else entries + [ZipEntry(name, data)]
  }

  /** The entries after the lenient packer has visited the walked paths. */
  function LenientPacked(fs: FS, jarSource: Path, walk: seq<Path>, entries: seq<ZipEntry>): seq<ZipEntry>
    requires forall i :: 0 <= i < |walk| ==> IsPrefix(jarSource, walk[i])
    decreases |walk|
  {
    if |walk| == 0 then entries
    else LenientPacked(fs, jarSource, walk[1..], LenientPackStep(fs, jarSource, walk[0], entries))
  }

  /** Main's packing of src/<id> into the sources jar: the jar is created,
      the directory walked, and the lenient packer's entries stored. */
  function PackSources(fs: FS, sourceJar: Path, srcDir: Path, walk: seq<Path>): Result<FS> {
    var fs1 :- WriteFile(fs, sourceJar, []);
    if srcDir !in fs1 then Err(NoSuchFile(srcDir))
    else if !IsWalk(fs1, srcDir, walk) then Err(NoSuchFile(srcDir))
    else
      WalkBelowRoot(fs1, srcDir, walk);
      Ok(fs1[sourceJar := File(Encode(LenientPacked(fs1, srcDir, walk, [])), true)])
  }

  /** Where the strict packer of Deployer succeeds, the lenient one packs
      the same entries. */
  lemma {:induction false} LenientAgreesWithStrict(fs: FS, jarSource: Path, walk: seq<Path>, acc: seq<ZipEntry>)
    requires forall i :: 0 <= i < |walk| ==> IsPrefix(jarSource, walk[i])
    requires Packed(fs, jarSource, walk, acc).Ok?
    ensures LenientPacked(fs, jarSource, walk, acc) == Packed(fs, jarSource, walk, acc).value
    decreases |walk|
  {
    if |walk| > 0 {
      assert forall i :: 0 <= i < |walk[1..]| ==> walk[1..][i] == walk[i + 1];
      LenientAgreesWithStrict(fs, jarSource, walk[1..], PackStep(fs, jarSource, walk[0], acc).value);
    }
  }

  /** A path the strict packer fails on is passed over by the lenient
      one. */
  lemma LenientSkipsFailure(fs: FS, jarSource: Path, p: Path, acc: seq<ZipEntry>)
    requires IsPrefix(jarSource, p) && PackStep(fs, jarSource, p, acc).Err?
    ensures LenientPackStep(fs, jarSource, p, acc) == acc
    ensures !IsDir(fs, p)
    ensures (p in fs && fs[p].File? && fs[p].readable) ==> EntryName(p[|jarSource|..]) in Names(acc)
  {
  }

  /** `e` is the entry of a readable regular file the walk visits. */
  predicate EntryOfReadable(fs: FS, jarSource: Path, walk: seq<Path>, e: ZipEntry)
    requires forall i :: 0 <= i < |walk| ==> IsPrefix(jarSource, walk[i])
  {
    exists i :: 0 <= i < |walk| && IsFile(fs, walk[i]) && fs[walk[i]].readable
                && e == ArchiveLaws.EntryFor(fs, jarSource, walk[i])
  }

  /** The lenient packer only appends; what it appends is the entry of a
      readable regular file of the walk, and it never repeats a name. Every
      readable regular file of the walk ends up with its name in the jar. */
  lemma {:induction false} LenientPackedEntries(fs: FS, jarSource: Path, walk: seq<Path>, acc: seq<ZipEntry>)
    requires forall i :: 0 <= i < |walk| ==> IsPrefix(jarSource, walk[i])
    ensures var r := LenientPacked(fs, jarSource, walk, acc);
      && |acc| <= |r| && r[..|acc|] == acc
      && (forall k :: |acc| <= k < |r| ==> EntryOfReadable(fs, jarSource, walk, r[k]))
      && (ArchiveLaws.DistinctNames(acc) ==> ArchiveLaws.DistinctNames(r))
      && (forall i :: 0 <= i < |walk| && IsFile(fs, walk[i]) && fs[walk[i]].readable ==>
            EntryName(walk[i][|jarSource|..]) in Names(r))
    decreases |walk|
  {
    if |walk| > 0 {
      var p := walk[0];
      var rest := walk[1..];
      var acc1 := LenientPackStep(fs, jarSource, p, acc);
      assert forall i :: 0 <= i < |rest| ==> rest[i] == walk[i + 1];
      LenientPackedEntries(fs, jarSource, rest, acc1);
      var r := LenientPacked(fs, jarSource, walk, acc);
      assert r == LenientPacked(fs, jarSource, rest, acc1);
      assert |acc| <= |acc1| && acc1[..|acc|] == acc;
      assert acc1[..|acc|] == r[..|acc|];
      AppendedOfReadable(fs, jarSource, walk, acc, r);
      if acc1 != acc {
        ArchiveLaws.NamesSnoc(acc, acc1[|acc|]);
        if ArchiveLaws.DistinctNames(acc) {
          assert forall i :: 0 <= i < |acc| ==> acc[i].name in Names(acc);
        }
      }
      NamesGrow(acc1, r);
      if IsFile(fs, p) && fs[p].readable {
        if acc1 != acc {
          assert acc1 == acc + [ZipEntry(EntryName(p[|jarSource|..]), fs[p].data)];
          ArchiveLaws.NamesSnoc(acc, acc1[|acc|]);
        }
        assert EntryName(p[|jarSource|..]) in Names(acc1);
      }
    }
  }

  /** Helper for LenientPackedEntries: what the first step and the rest
      of the walk append are entries of readable files of the walk. */
  lemma AppendedOfReadable(fs: FS, jarSource: Path, walk: seq<Path>, acc: seq<ZipEntry>, r: seq<ZipEntry>)
    requires |walk| > 0 && forall i :: 0 <= i < |walk| ==> IsPrefix(jarSource, walk[i])
    requires var acc1 := LenientPackStep(fs, jarSource, walk[0], acc);
      && |acc| <= |acc1| <= |r| && acc1[..|acc|] == acc && r[..|acc1|] == acc1
      && forall k :: |acc1| <= k < |r| ==> EntryOfReadable(fs, jarSource, walk[1..], r[k])
    ensures forall k :: |acc| <= k < |r| ==> EntryOfReadable(fs, jarSource, walk, r[k])
  {
    var rest := walk[1..];
    var acc1 := LenientPackStep(fs, jarSource, walk[0], acc);
    forall k | |acc| <= k < |r|
      ensures EntryOfReadable(fs, jarSource, walk, r[k])
    {
      if k < |acc1| {
        assert r[k] == acc1[k] == ArchiveLaws.EntryFor(fs, jarSource, walk[0]);
      } else {
        assert EntryOfReadable(fs, jarSource, rest, r[k]);
        var i :| 0 <= i < |rest| && IsFile(fs, rest[i]) && fs[rest[i]].readable
                 && r[k] == ArchiveLaws.EntryFor(fs, jarSource, rest[i]);
        assert rest[i] == walk[i + 1];
      }
    }
  }

  /** Appending keeps the names already there. */
  lemma NamesGrow(a: seq<ZipEntry>, b: seq<ZipEntry>)
    requires |a| <= |b| && b[..|a|] == a
    ensures Names(a) <= Names(b)
  {
    forall n | n in Names(a)
      ensures n in Names(b)
    {
      var i :| 0 <= i < |a| && a[i].name == n;
      assert b[i] == a[i];
    }
  }

  /** Main's inline packing of a sources directory: creates the jar, walks
      the directory and adds every regular file it can read, skipping the
      ones whose stream cannot be opened or whose entry cannot be added. */
  method ZipSources(fs: FileSystem, sourceJar: Path, srcDir: Path) returns (r: Outcome, ghost walk: seq<Path>)
    modifies fs
    ensures r == StatusOf(PackSources(old(fs.nodes), sourceJar, srcDir, walk))
    ensures r.Pass? ==> fs.nodes == PackSources(old(fs.nodes), sourceJar, srcDir, walk).value
    ensures ZipWalk(old(fs.nodes), sourceJar, srcDir, walk)
  {
    walk := [];
    r := fs.NewOutputStream(sourceJar);
    if r.Fail? {
      return;
    }
    ghost var fs1 := fs.nodes;
    var zipOutputStream := new ZipOut();
    var paths;
    r, paths := fs.Walk(srcDir);
    if r.Fail? {
      return;
    }
    walk := paths;
    WalkBelowRoot(fs1, srcDir, paths);
    var i := 0;
    while i < |paths|
      invariant 0 <= i <= |paths| && fs.nodes == fs1
      invariant LenientPacked(fs1, srcDir, paths, []) == LenientPacked(fs1, srcDir, paths[i..], zipOutputStream.entries)
    {
      assert paths[i..][1..] == paths[i + 1..];
      var maybeJavaFile := paths[i];
      var isDir := fs.IsDirectory(maybeJavaFile);
      if !isDir {
        var entryName := EntryName(maybeJavaFile[|srcDir|..]);
        var readable, fileStream := fs.NewInputStream(maybeJavaFile);
        if readable.Pass? {
          var added := AddToZipFile(entryName, fileStream, zipOutputStream);
        }
      }
      i := i + 1;
    }
    fs.Store(sourceJar, Encode(zipOutputStream.entries));
    r := Pass;
  }

  /** One turn of Main's source-attachment loop, which packs leniently. */
  function AttachStep(fs: FS, l: Deployer.SourceLayout, a: Artifact, walk: seq<Path>): Result<(FS, Artifact)> {
    if !Exists(fs, l.srcDir) then Ok((fs, a))
    else
      var fs1 :- DeleteIfExists(fs, l.sourceJar);
      var fs2 :- PackSources(fs1, l.sourceJar, l.srcDir, walk);
      Ok((fs2, a.(sourcesJar := Some(l.sourceJar))))
  }

  /** Main's source-attachment loop over the working set. */
  function Attached(fs: FS, ls: seq<Deployer.SourceLayout>, arts: seq<Artifact>, walks: seq<seq<Path>>): Result<(FS, seq<Artifact>)>
    requires |ls| == |arts| && |walks| == |arts|
    decreases |arts|
  {
    if |arts| == 0 then Ok((fs, []))
    else
      var n := |arts| - 1;
      var done :- Attached(fs, ls[..n], arts[..n], walks[..n]);
      var step :- AttachStep(done.0, ls[n], arts[n], walks[n]);
      Ok((step.0, done.1 + [step.1]))
  }

  /** Where Deployer's attachment step succeeds, Main's does the same. */
  lemma AttachStepAgrees(fs: FS, l: Deployer.SourceLayout, a: Artifact, walk: seq<Path>)
    requires Deployer.AttachStep(fs, l, a, walk).Ok?
    ensures AttachStep(fs, l, a, walk) == Deployer.AttachStep(fs, l, a, walk)
  {
    if Exists(fs, l.srcDir) {
      var fs1 := DeleteIfExists(fs, l.sourceJar).value;
      ArchiveLaws.ZipDirectoryShape(fs1, l.sourceJar, l.srcDir, walk);
      LenientAgreesWithStrict(fs1[l.sourceJar := File([], true)], l.srcDir, walk, []);
    }
  }

  /** Where Deployer's attachment loop succeeds, Main's leaves the same
      file system and the same artifacts, so the laws proved for
      Deployer's loop hold for it too. */
  lemma {:induction false} AttachedAgrees(fs: FS, ls: seq<Deployer.SourceLayout>, arts: seq<Artifact>, walks: seq<seq<Path>>)
    requires |ls| == |arts| && |walks| == |arts| && Deployer.Attached(fs, ls, arts, walks).Ok?
    ensures Attached(fs, ls, arts, walks) == Deployer.Attached(fs, ls, arts, walks)
    decreases |arts|
  {
    if |arts| > 0 {
      var n := |arts| - 1;
      Deployer.AttachedLast(fs, ls, arts, walks);
      AttachedAgrees(fs, ls[..n], arts[..n], walks[..n]);
      var done := Deployer.Attached(fs, ls[..n], arts[..n], walks[..n]).value;
      AttachStepAgrees(done.0, ls[n], arts[n], walks[n]);
    }
  }

  /** Once a prefix of Main's loop fails, the whole loop fails the same way. */
  lemma {:induction false} AttachedFailsOnward(fs: FS, ls: seq<Deployer.SourceLayout>, arts: seq<Artifact>, walks: seq<seq<Path>>, m: nat)
    requires |ls| == |arts| && |walks| == |arts| && m <= |arts|
    requires Attached(fs, ls[..m], arts[..m], walks[..m]).Err?
    ensures Attached(fs, ls, arts, walks) == Attached(fs, ls[..m], arts[..m], walks[..m])
    decreases |arts|
  {
    if m < |arts| {
      var n := |arts| - 1;
      assert ls[..n][..m] == ls[..m];
      assert arts[..n][..m] == arts[..m];
      assert walks[..n][..m] == walks[..m];
      AttachedFailsOnward(fs, ls[..n], arts[..n], walks[..n], m);
    } else {
      assert ls[..m] == ls;
      assert arts[..m] == arts;
      assert walks[..m] == walks;
    }
  }

  /** Each walk Main's loop reports is legitimate for the file system its
      turn starts on, for every turn the loop reaches. */
  predicate WalksTaken(fs: FS, ls: seq<Deployer.SourceLayout>, arts: seq<Artifact>, walks: seq<seq<Path>>)
    requires |ls| == |arts| && |walks| <= |arts|
  {
    forall i :: 0 <= i < |walks| && Attached(fs, ls[..i], arts[..i], walks[..i]).Ok? ==>
      Deployer.StepWalk(Attached(fs, ls[..i], arts[..i], walks[..i]).value.0, ls[i], walks[i])
  }

  /** A legitimate walk for the turn after a successful prefix extends the
      legitimate walks. */
  lemma WalksTakenNext(fs: FS, ls: seq<Deployer.SourceLayout>, arts: seq<Artifact>, walks: seq<seq<Path>>, walk: seq<Path>)
    requires |ls| == |arts| && |walks| < |arts| && WalksTaken(fs, ls, arts, walks)
    requires Attached(fs, ls[..|walks|], arts[..|walks|], walks).Ok?
    requires Deployer.StepWalk(Attached(fs, ls[..|walks|], arts[..|walks|], walks).value.0, ls[|walks|], walk)
    ensures WalksTaken(fs, ls, arts, walks + [walk])
  {
    var w := walks + [walk];
    forall i | 0 <= i < |w|
      ensures Attached(fs, ls[..i], arts[..i], w[..i]).Ok? ==>
                Deployer.StepWalk(Attached(fs, ls[..i], arts[..i], w[..i]).value.0, ls[i], w[i])
    {
      if i < |walks| {
        assert w[..i] == walks[..i] && w[i] == walks[i];
      } else {
        assert w[..i] == walks;
      }
    }
  }

  /** Padding the walks after a failed turn with empty ones keeps them
      legitimate: the turns after it are never reached. */
  lemma WalksTakenPadded(fs: FS, ls: seq<Deployer.SourceLayout>, arts: seq<Artifact>, walks: seq<seq<Path>>)
    requires |ls| == |arts| && |walks| <= |arts| && WalksTaken(fs, ls, arts, walks)
    requires Attached(fs, ls[..|walks|], arts[..|walks|], walks).Err?
    ensures WalksTaken(fs, ls, arts, Deployer.Fit(walks, |arts|))
  {
    var padded := Deployer.Fit(walks, |arts|);
    var m := |walks|;
    forall i | 0 <= i < |padded|
      ensures Attached(fs, ls[..i], arts[..i], padded[..i]).Ok? ==>
                Deployer.StepWalk(Attached(fs, ls[..i], arts[..i], padded[..i]).value.0, ls[i], padded[i])
    {
      if i < m {
        assert padded[..i] == walks[..i] && padded[i] == walks[i];
      } else {
        assert ls[..i][..m] == ls[..m] && arts[..i][..m] == arts[..m] && padded[..i][..m] == walks;
        AttachedFailsOnward(fs, ls[..i], arts[..i], padded[..i], m);
      }
    }
  }

  /** The body of the source-attachment loop for the `i`-th artifact,
      whose sources directory and sources jar are `l`. */
  method AttachOne(fs: FileSystem, list: WorkingSet, i: nat, l: Deployer.SourceLayout)
    returns (r: Outcome, ghost walk: seq<Path>)
    requires i < |list.artifacts|
    modifies fs, list
    ensures |list.artifacts| == |old(list.artifacts)|
    ensures list.artifacts == old(list.artifacts)[i := list.artifacts[i]]
    ensures r == StatusOf(AttachStep(old(fs.nodes), l, old(list.artifacts)[i], walk))
    ensures r.Pass? ==> AttachStep(old(fs.nodes), l, old(list.artifacts)[i], walk) == Ok((fs.nodes, list.artifacts[i]))
    ensures Deployer.StepWalk(old(fs.nodes), l, walk)
  {
    walk := [];
    var srcJarDistribution := l.srcDir;
    var present := fs.Exists(srcJarDistribution);
    if present {
      var sourceJar := l.sourceJar;
      list.SetSources(i, sourceJar);
      :- fs.DeleteIfExists(sourceJar);
      r, walk := ZipSources(fs, sourceJar, srcJarDistribution);
    } else {
      r := Pass;
    }
  }

  /** Main's loop over no artifacts changes nothing. */
  lemma AttachedNone(fs: FS, ls: seq<Deployer.SourceLayout>, arts: seq<Artifact>)
    requires |ls| == |arts| == 0
    ensures Attached(fs, ls, arts, []) == Ok((fs, []))
  {
  }

  /** One more turn of Main's loop: a successful step extends the fold over
      the prefix, a failed one fails the whole loop, the walks never made
      left empty. */
  lemma AttachedNext(fs: FS, ls: seq<Deployer.SourceLayout>, arts: seq<Artifact>, walks: seq<seq<Path>>, walk: seq<Path>,
                     fs1: FS, done: seq<Artifact>, r: Outcome, fs2: FS, a: Artifact)
    requires |ls| == |arts| && |walks| < |arts|
    requires Attached(fs, ls[..|walks|], arts[..|walks|], walks) == Ok((fs1, done))
    requires r == StatusOf(AttachStep(fs1, ls[|walks|], arts[|walks|], walk))
    requires r.Pass? ==> AttachStep(fs1, ls[|walks|], arts[|walks|], walk) == Ok((fs2, a))
    ensures var i := |walks| + 1;
      r.Pass? ==> Attached(fs, ls[..i], arts[..i], walks + [walk]) == Ok((fs2, done + [a]))
    ensures r.Fail? ==> r == StatusOf(Attached(fs, ls, arts, Deployer.Fit(walks + [walk], |arts|)))
    ensures var i := |walks| + 1; r.Fail? ==> Attached(fs, ls[..i], arts[..i], walks + [walk]).Err?
  {
    var i := |walks|;
    assert ls[..i + 1][..i] == ls[..i] && arts[..i + 1][..i] == arts[..i] && (walks + [walk])[..i] == walks;
    if r.Fail? {
      PaddedFails(fs, ls, arts, walks + [walk]);
    }
  }

  /** One turn of the source-attachment loop, stated as the fold over the
      artifacts before it and the artifact itself, from the file system
      `fs0` the loop started on; `ls` are the artifacts' layouts. */
  method AttachNext(fs: FileSystem, list: WorkingSet, i: nat, l: Deployer.SourceLayout,
                    ghost fs0: FS, ghost ls: seq<Deployer.SourceLayout>, ghost arts: seq<Artifact>, ghost walks: seq<seq<Path>>)
    returns (r: Outcome, ghost walk: seq<Path>)
    requires i == |walks| < |arts| == |list.artifacts| == |ls| && l == ls[i] && list.artifacts[i..] == arts[i..]
    requires Attached(fs0, ls[..i], arts[..i], walks) == Ok((fs.nodes, list.artifacts[..i]))
    requires WalksTaken(fs0, ls, arts, walks)
    modifies fs, list
    ensures |list.artifacts| == |arts|
    ensures WalksTaken(fs0, ls, arts, walks + [walk])
    ensures r.Fail? ==> Attached(fs0, ls[..i + 1], arts[..i + 1], walks + [walk]).Err?
    ensures r.Fail? ==> r == StatusOf(Attached(fs0, ls, arts, Deployer.Fit(walks + [walk], |arts|)))
    ensures r.Pass? ==> && list.artifacts[i + 1..] == arts[i + 1..]
                        && Attached(fs0, ls[..i + 1], arts[..i + 1], walks + [walk]) == Ok((fs.nodes, list.artifacts[..i + 1]))
  {
    ghost var fs1 := fs.nodes;
    ghost var before := list.artifacts;
    assert before[i] == arts[i] && before[i + 1..] == arts[i + 1..];
    r, walk := AttachOne(fs, list, i, l);
    AttachedNext(fs0, ls, arts, walks, walk, fs1, before[..i], r, fs.nodes, list.artifacts[i]);
    WalksTakenNext(fs0, ls, arts, walks, walk);
    Deployer.ReplacedAt(before, list.artifacts, i);
  }

  /** Main's source-attachment loop; `walks` holds the walk of each
      packing, those never made left empty. */
  method AttachSources(fs: FileSystem, list: WorkingSet, gradleSrc: Path, version: string)
    returns (r: Outcome, ghost walks: seq<seq<Path>>)
    modifies fs, list
    ensures |walks| == |old(list.artifacts)|
    ensures r == StatusOf(Attached(old(fs.nodes), Deployer.Layouts(gradleSrc, version, old(list.artifacts)), old(list.artifacts), walks))
    ensures r.Pass? ==> Attached(old(fs.nodes), Deployer.Layouts(gradleSrc, version, old(list.artifacts)), old(list.artifacts), walks)
                        == Ok((fs.nodes, list.artifacts))
    ensures WalksTaken(old(fs.nodes), Deployer.Layouts(gradleSrc, version, old(list.artifacts)), old(list.artifacts), walks)
  {
    ghost var arts := list.artifacts;
    ghost var fs0 := fs.nodes;
    ghost var ls := Deployer.Layouts(gradleSrc, version, arts);
    walks := [];
    AttachedNone(fs0, ls[..0], arts[..0]);
    assert list.artifacts[..0] == [];
    var i := 0;
    while i < |list.artifacts|
      invariant 0 <= i <= |arts| == |list.artifacts| && |walks| == i
      invariant list.artifacts[i..] == arts[i..]
      invariant Attached(fs0, ls[..i], arts[..i], walks) == Ok((fs.nodes, list.artifacts[..i]))
      invariant WalksTaken(fs0, ls, arts, walks)
    {
      var layout := Deployer.LayoutOf(gradleSrc, version, list.artifacts[i]);
      ghost var walk;
      r, walk := AttachNext(fs, list, i, layout, fs0, ls, arts, walks);
      walks := walks + [walk];
      if r.Fail? {
        WalksTakenPadded(fs0, ls, arts, walks);
        walks := Deployer.Fit(walks, |arts|);
        return;
      }
      i := i + 1;
    }
    assert ls[..i] == ls;
    assert arts[..i] == arts && list.artifacts[..i] == list.artifacts;
    r := Pass;
  }

  /** A failed prefix of Main's loop, with the walks never made left
      empty, is a failed loop. */
  lemma PaddedFails(fs: FS, ls: seq<Deployer.SourceLayout>, arts: seq<Artifact>, walks: seq<seq<Path>>)
    requires |ls| == |arts| && |walks| <= |arts|
    requires Attached(fs, ls[..|walks|], arts[..|walks|], walks).Err?
    ensures Attached(fs, ls, arts, Deployer.Fit(walks, |arts|)) == Attached(fs, ls[..|walks|], arts[..|walks|], walks)
  {
    var padded := Deployer.Fit(walks, |arts|);
    assert padded[..|walks|] == walks;
    AttachedFailsOnward(fs, ls, arts, padded, |walks|);
  }

  /** Main.cleanAndDownloadGradle: a fresh build directory, the download
      stored under Main's name, an empty extract directory, then Main's
      unzip. */
  function CleanAndDownloadResult(fs: FS, target: Path, download: seq<byte>): Result<FS> {
    var fs1 :- Recreated(fs, target);
    var fs2 :- CopyIn(fs1, DistributionZip(target), download);
    var fs3 :- CreateDirectory(fs2, Deployer.ExtractDir(target));
    UnzipFile(fs3, DistributionZip(target), Deployer.ExtractDir(target))
  }

  /** Main.cleanAndDownloadGradle */
  method CleanAndDownload(fs: FileSystem, target: Path, download: seq<byte>) returns (r: Outcome)
    modifies fs
    ensures r == StatusOf(CleanAndDownloadResult(old(fs.nodes), target, download))
    ensures r.Pass? ==> fs.nodes == CleanAndDownloadResult(old(fs.nodes), target, download).value
  {
    var zipDistribution := DistributionZip(target);
    :- fs.Recreate(target);
    :- fs.Copy(download, zipDistribution);
    :- fs.CreateDirectory(Deployer.ExtractDir(target));
    r := Unzip(fs, zipDistribution, Deployer.ExtractDir(target));
  }

  /** Where Main's extraction succeeds, it leaves what Deployer's
      extraction leaves on the same directory with the same archive. */
  lemma ExtractionRefined(fs: FS, zipFile: Path, extractTo: Path)
    requires UnzipFile(fs, zipFile, extractTo).Ok?
    ensures ArchiveCodec.UnzipFile(fs, zipFile, extractTo, Deployer.SkipExamples) == UnzipFile(fs, zipFile, extractTo)
  {
    UnzippedRefined(fs, extractTo, ReadArchive(fs, zipFile).value);
  }

  /** The choices Main leaves to the file system: the distribution
      directory, the walk of lib and the walks of the sources packing. */
  datatype Choices = Choices(gradleDirectory: Path, libWalk: seq<Path>, sourceWalks: seq<seq<Path>>)

  /** The version: the distribution directory's name without "gradle-". */
  function VersionOfDistribution(c: Choices): string {
    Version(FileName(c.gradleDirectory))
  }

  /** Main's source attachment, run only when src exists. */
  function Sourced(fs: FS, gradleSrc: Path, version: string, arts: seq<Artifact>, walks: seq<seq<Path>>): Result<(FS, seq<Artifact>)> {
    if Exists(fs, gradleSrc) then Attached(fs, Deployer.Layouts(gradleSrc, version, arts), arts, Deployer.Fit(walks, |arts|)) else Ok((fs, arts))
  }

  /** Main.main up to the deploy loop: the file system it leaves and the
      artifacts it deploys. There is no post-processing hook. */
  function RunResult(fs: FS, target: Path, download: seq<byte>, c: Choices): Result<(FS, seq<Artifact>)> {
    var fs1 :- CleanAndDownloadResult(fs, target, download);
    var extract := Deployer.ExtractDir(target);
    if extract !in fs1 then Err(NoSuchFile(extract))
    else if Subtree(fs1, extract) <= {extract} then Err(NoSuchElement)
    else
      var gradleLib := c.gradleDirectory + ["lib"];
      if gradleLib !in fs1 then Err(NoSuchFile(gradleLib))
      else Sourced(fs1, c.gradleDirectory + ["src"], VersionOfDistribution(c), Unattached(GradleJars(c.libWalk)), c.sourceWalks)
  }

  /** The choices are the file system's: the distribution directory is
      below extract, and the lib walk lists lib's subtree. */
  predicate Chosen(fs: FS, target: Path, download: seq<byte>, c: Choices) {
    && CleanAndDownloadResult(fs, target, download).Ok?
    && var fs1 := CleanAndDownloadResult(fs, target, download).value;
       && c.gradleDirectory in Subtree(fs1, Deployer.ExtractDir(target)) - {Deployer.ExtractDir(target)}
       && IsWalk(fs1, c.gradleDirectory + ["lib"], c.libWalk)
  }

  /** The walks of lib and of the sources packing are walks of the
      directories they list, taken in the state Main had reached, for every
      step Main reaches. */
  predicate ListedWalks(fs: FS, c: Choices) {
    var gradleLib := c.gradleDirectory + ["lib"];
    var gradleSrc := c.gradleDirectory + ["src"];
    var arts := Unattached(GradleJars(c.libWalk));
    gradleLib in fs ==>
      && IsWalk(fs, gradleLib, c.libWalk)
      && (Exists(fs, gradleSrc) ==>
            WalksTaken(fs, Deployer.Layouts(gradleSrc, VersionOfDistribution(c), arts), arts, Deployer.Fit(c.sourceWalks, |arts|)))
  }

  /** Main's choices are the file system's wherever Main gets to make
      them: once extract has something below it, the distribution
      directory is below extract, and every later walk is legitimate. */
  predicate Legitimate(fs: FS, target: Path, download: seq<byte>, c: Choices) {
    var cleaned := CleanAndDownloadResult(fs, target, download);
    var extract := Deployer.ExtractDir(target);
    cleaned.Ok? && extract in cleaned.value && !(Subtree(cleaned.value, extract) <= {extract}) ==>
      && c.gradleDirectory in Subtree(cleaned.value, extract) - {extract}
      && ListedWalks(cleaned.value, c)
  }

  /** The working set Main deploys: the Gradle jars of lib with the sources
      attached when there is a src directory. */
  method BuildList(fs: FileSystem, gradleDirectory: Path)
    returns (r: Outcome, deployed: seq<Artifact>, ghost c: Choices)
    modifies fs
    ensures c.gradleDirectory == gradleDirectory
    ensures r == StatusOf(if gradleDirectory + ["lib"] !in old(fs.nodes) then Err(NoSuchFile(gradleDirectory + ["lib"]))
                          else Sourced(old(fs.nodes), gradleDirectory + ["src"], VersionOfDistribution(c),
                                       Unattached(GradleJars(c.libWalk)), c.sourceWalks))
    ensures r.Pass? ==> IsWalk(old(fs.nodes), gradleDirectory + ["lib"], c.libWalk)
    ensures r.Pass? ==> Sourced(old(fs.nodes), gradleDirectory + ["src"], VersionOfDistribution(c),
                                Unattached(GradleJars(c.libWalk)), c.sourceWalks) == Ok((fs.nodes, deployed))
    ensures ListedWalks(old(fs.nodes), c)
  {
    deployed, c := [], Choices(gradleDirectory, [], []);
    var version := Version(FileName(gradleDirectory));
    var jarLibsForDeploy := new WorkingSet();
    ghost var libWalk;
    r, libWalk := CollectJars(fs, gradleDirectory + ["lib"], jarLibsForDeploy);
    c := c.(libWalk := libWalk);
    if r.Fail? {
      return;
    }
    assert jarLibsForDeploy.artifacts == Unattached(GradleJars(libWalk));
    var gradleSrc := gradleDirectory + ["src"];
    var hasSources := fs.Exists(gradleSrc);
    if hasSources {
      ghost var walks;
      r, walks := AttachSources(fs, jarLibsForDeploy, gradleSrc, version);
      c := c.(sourceWalks := walks);
    }
    deployed := jarLibsForDeploy.artifacts;
  }

  /** Main.main, with the same parameters as Deployer.run: MAVEN_HOME or
      the first argument, the working directory, os.name, the bytes the
      distribution URL serves and each Maven run's exit status. */
  method RunMain(fs: FileSystem, cwd: Path, mavenHomeEnv: Option<string>, args: seq<string>,
                 osName: string, download: seq<byte>, exitStatus: nat -> int)
    returns (r: Outcome, trace: seq<Event>, ghost c: Choices, ghost deployed: seq<Artifact>)
    modifies fs
    ensures MavenHome(mavenHomeEnv, args).Err? ==> r == Fail(MissingArgument) && fs.nodes == old(fs.nodes)
    ensures MavenHome(mavenHomeEnv, args).Ok? ==> r == StatusOf(RunResult(old(fs.nodes), Deployer.BuildDir(cwd), download, c))
    ensures r.Fail? ==> trace == []
    ensures MavenHome(mavenHomeEnv, args).Ok? ==> Legitimate(old(fs.nodes), Deployer.BuildDir(cwd), download, c)
    ensures r.Pass? ==> Chosen(old(fs.nodes), Deployer.BuildDir(cwd), download, c)
    ensures r.Pass? ==> RunResult(old(fs.nodes), Deployer.BuildDir(cwd), download, c) == Ok((fs.nodes, deployed))
    ensures r.Pass? ==>
      var command := CommandFile(MavenHome(mavenHomeEnv, args).value, IsWindows(osName));
      trace == Reports(WithoutSources(deployed))
               + Deployer.Deployments(command, VersionOfDistribution(c), deployed, RunsMade(exitStatus, |deployed|, 0))
  {
    trace, c, deployed := [], Choices([], [], []), [];
    var mavenHome := MavenHome(mavenHomeEnv, args);
    if mavenHome.Err? {
      return Fail(MissingArgument), [], c, [];
    }
    var target := Deployer.BuildDir(cwd);
    r := CleanAndDownload(fs, target, download);
    if r.Fail? {
      return;
    }
    var gradleDirectory;
    r, gradleDirectory := Deployer.FindDistribution(fs, Deployer.ExtractDir(target));
    if r.Fail? {
      return;
    }
    var version := Version(FileName(gradleDirectory));
    var jarLibsForDeploy;
    r, jarLibsForDeploy, c := BuildList(fs, gradleDirectory);
    if r.Fail? {
      return;
    }
    deployed := jarLibsForDeploy;
    var reports := ReportMissing(jarLibsForDeploy);
    var isWindows := IsWindows(osName);
    var commandFile := CommandFile(mavenHome.value, isWindows);
    var calls := DeployAll(jarLibsForDeploy, version, commandFile, exitStatus);
    trace := reports + Deployer.Invokes(calls);
    assert Deployer.Invokes(calls) == Deployer.Deployments(commandFile, version, deployed, |calls|);
  }

  /** Main deploys exactly the jars below lib whose name starts with
      "gradle-" and ends with ".jar", each once, in walk order. */
  lemma DeploysLibJars(fs: FS, target: Path, download: seq<byte>, c: Choices, p: Path)
    requires Chosen(fs, target, download, c) && RunResult(fs, target, download, c).Ok?
    ensures var deployed := RunResult(fs, target, download, c).value.1;
      var fs1 := CleanAndDownloadResult(fs, target, download).value;
      && |deployed| == |GradleJars(c.libWalk)|
      && (forall i :: 0 <= i < |deployed| ==> deployed[i].jar == GradleJars(c.libWalk)[i])
      && (p in GradleJars(c.libWalk) <==> p in Subtree(fs1, c.gradleDirectory + ["lib"]) && IsGradleJar(FileName(p)))
  {
    var fs1 := CleanAndDownloadResult(fs, target, download).value;
    var arts := Unattached(GradleJars(c.libWalk));
    var gradleSrc := c.gradleDirectory + ["src"];
    var version := VersionOfDistribution(c);
    if Exists(fs1, gradleSrc) {
      AttachedKeepsJars(fs1, Deployer.Layouts(gradleSrc, version, arts), arts, Deployer.Fit(c.sourceWalks, |arts|));
    }
    GradleJarsMembers(c.libWalk, p);
  }

  /** Main's loop keeps every artifact's jar in place. */
  lemma {:induction false} AttachedKeepsJars(fs: FS, ls: seq<Deployer.SourceLayout>, arts: seq<Artifact>, walks: seq<seq<Path>>)
    requires |ls| == |arts| && |walks| == |arts| && Attached(fs, ls, arts, walks).Ok?
    ensures var out := Attached(fs, ls, arts, walks).value.1;
      |out| == |arts| && forall i :: 0 <= i < |arts| ==> out[i].jar == arts[i].jar
    decreases |arts|
  {
    if |arts| > 0 {
      var n := |arts| - 1;
      AttachedLast(fs, ls, arts, walks);
      AttachedKeepsJars(fs, ls[..n], arts[..n], walks[..n]);
      var done := Attached(fs, ls[..n], arts[..n], walks[..n]).value;
      AttachStepKeepsJar(done.0, ls[n], arts[n], walks[n]);
      var out := Attached(fs, ls, arts, walks).value.1;
      forall i | 0 <= i < |arts| ensures out[i].jar == arts[i].jar {
        if i < n {
          assert out[i] == done.1[i] && arts[..n][i] == arts[i];
        }
      }
    }
  }

  /** A step of Main's loop changes nothing but the artifact's sourcesJar. */
  lemma AttachStepKeepsJar(fs: FS, l: Deployer.SourceLayout, a: Artifact, walk: seq<Path>)
    requires AttachStep(fs, l, a, walk).Ok?
    ensures AttachStep(fs, l, a, walk).value.1.jar == a.jar
  {
  }

  /** The last turn of Main's loop: the prefix succeeded and the last step
      followed it. */
  lemma AttachedLast(fs: FS, ls: seq<Deployer.SourceLayout>, arts: seq<Artifact>, walks: seq<seq<Path>>)
    requires |ls| == |arts| && |walks| == |arts| > 0 && Attached(fs, ls, arts, walks).Ok?
    ensures var n := |arts| - 1;
      var done := Attached(fs, ls[..n], arts[..n], walks[..n]);
      && done.Ok?
      && AttachStep(done.value.0, ls[n], arts[n], walks[n]).Ok?
      && var step := AttachStep(done.value.0, ls[n], arts[n], walks[n]).value;
         Attached(fs, ls, arts, walks).value == (step.0, done.value.1 + [step.1])
  {
  }

  /** When Deployer's attachment loop would succeed on the same file
      system, Main attaches exactly the same sources jars: a jar gets one
      when its src directory exists, provided no sources directory is
      another jar's sources jar. */
  lemma AttachesLikeDeployer(fs: FS, target: Path, download: seq<byte>, c: Choices)
    requires Chosen(fs, target, download, c) && RunResult(fs, target, download, c).Ok?
    requires var fs1 := CleanAndDownloadResult(fs, target, download).value;
      var arts := Unattached(GradleJars(c.libWalk));
      Deployer.Sourced(fs1, c.gradleDirectory + ["src"], VersionOfDistribution(c), arts, c.sourceWalks).Ok?
    requires var arts := Unattached(GradleJars(c.libWalk));
      forall i, j :: 0 <= i < |arts| && 0 <= j < |arts| ==>
        Deployer.LayoutOf(c.gradleDirectory + ["src"], VersionOfDistribution(c), arts[i]).srcDir
          != Deployer.LayoutOf(c.gradleDirectory + ["src"], VersionOfDistribution(c), arts[j]).sourceJar
    ensures var fs1 := CleanAndDownloadResult(fs, target, download).value;
      var gradleSrc := c.gradleDirectory + ["src"];
      var arts := Unattached(GradleJars(c.libWalk));
      RunResult(fs, target, download, c).value.1
        == if Exists(fs1, gradleSrc) then Deployer.AllWithSources(fs1, Deployer.Layouts(gradleSrc, VersionOfDistribution(c), arts), arts) else arts
  {
    var fs1 := CleanAndDownloadResult(fs, target, download).value;
    var arts := Unattached(GradleJars(c.libWalk));
    var gradleSrc := c.gradleDirectory + ["src"];
    var version := VersionOfDistribution(c);
    if Exists(fs1, gradleSrc) {
      var walks := Deployer.Fit(c.sourceWalks, |arts|);
      var ls := Deployer.Layouts(gradleSrc, version, arts);
      AttachedAgrees(fs1, ls, arts, walks);
      Deployer.AttachedSources(fs1, ls, arts, walks);
    }
  }
}
