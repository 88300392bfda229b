/** What unzip and zipDirectory do to a file system, stated over the
    functions that specify them. */
module ArchiveLaws {
  import opened Base
  import opened Text
  import opened Paths
  import opened FileTree
  import opened Archive
  import opened Io
  import opened ArchiveCodec

  /** The entries the skip predicate lets through, in archive order. */
  function Accepted(entries: seq<ZipEntry>, skip: string -> bool): (r: seq<ZipEntry>)
    ensures |r| <= |entries|
    ensures forall i :: 0 <= i < |r| ==> !skip(r[i].name) && r[i] in entries
    decreases |entries|
  {
    if |entries| == 0 then []
    else if skip(entries[0].name) then Accepted(entries[1..], skip)
    else [entries[0]] + Accepted(entries[1..], skip)
  }

  /** Entry `e` is extracted as a regular file at `q`. */
  predicate Writes(extractTo: Path, e: ZipEntry, skip: string -> bool, q: Path) {
    !skip(e.name) && !e.IsDirectory() && Resolve(extractTo, e.name) == q
  }

  /** Entry `e` is accepted and `q` lies on the way to where it goes. */
  predicate Touches(extractTo: Path, e: ZipEntry, skip: string -> bool, q: Path) {
    !skip(e.name) && IsPrefix(q, Resolve(extractTo, e.name))
  }

  /** Skipping is the same as never having had the skipped entries. */
  lemma {:induction false} UnzipAcceptedOnly(fs: FS, extractTo: Path, entries: seq<ZipEntry>, skip: string -> bool)
    ensures Unzipped(fs, extractTo, entries, skip) == Unzipped(fs, extractTo, Accepted(entries, skip), AcceptAll)
    decreases |entries|
  {
    if |entries| > 0 {
      var e := entries[0];
      if skip(e.name) {
        UnzipAcceptedOnly(fs, extractTo, entries[1..], skip);
      } else {
        var acc := Accepted(entries, skip);
        assert acc[0] == e && acc[1..] == Accepted(entries[1..], skip);
        assert UnzipStep(fs, extractTo, e, skip) == UnzipStep(fs, extractTo, e, AcceptAll);
        match UnzipStep(fs, extractTo, e, skip)
        case Err(_) =>
        case Ok(fs1) => UnzipAcceptedOnly(fs1, extractTo, entries[1..], skip);
      }
    }
  }

  /** A prefix of a parent is a prefix of the child. */
  lemma PrefixOfParent(q: Path, p: Path)
    requires |p| > 0 && IsPrefix(q, Parent(p))
    ensures IsPrefix(q, p) && q != p
  {
    assert p[..|q|] == Parent(p)[..|q|];
  }

  /** One step changes only paths on the way to its entry's target; it
      only replaces the node at a path where it writes a file; and the
      regular files afterwards are those before plus its target. */
  lemma StepEffect(fs: FS, extractTo: Path, e: ZipEntry, skip: string -> bool, q: Path)
    requires UnzipStep(fs, extractTo, e, skip).Ok?
    ensures var fs' := UnzipStep(fs, extractTo, e, skip).value;
      && (!Touches(extractTo, e, skip, q) ==> Agree(fs, fs', q))
      && (q in fs && !Writes(extractTo, e, skip, q) ==> q in fs' && fs'[q] == fs[q])
      && (IsFile(fs', q) <==> IsFile(fs, q) || Writes(extractTo, e, skip, q))
      && (Writes(extractTo, e, skip, q) ==> fs'[q] == File(e.data, true))
  {
    if !skip(e.name) {
      var p := Resolve(extractTo, e.name);
      if !e.IsDirectory() {
        var fs1 := CreateDirectories(fs, Parent(p)).value;
        if q in fs1 && q !in fs {
          PrefixOfParent(q, p);
        }
      }
    }
  }

  /** Paths no accepted entry leads through keep their node, for entry
      names without "." or ".." components. */
  lemma {:induction false} UnzippedFrame(fs: FS, extractTo: Path, entries: seq<ZipEntry>, skip: string -> bool, q: Path)
    requires Unzipped(fs, extractTo, entries, skip).Ok?
    requires forall i :: 0 <= i < |entries| && !skip(entries[i].name) ==> NoDotComponents(entries[i].name)
    requires forall i :: 0 <= i < |entries| ==> !Touches(extractTo, entries[i], skip, q)
    ensures Agree(fs, Unzipped(fs, extractTo, entries, skip).value, q)
    decreases |entries|
  {
    if |entries| > 0 {
      var fs1 := UnzipStep(fs, extractTo, entries[0], skip).value;
      StepEffect(fs, extractTo, entries[0], skip, q);
      UnzippedFrame(fs1, extractTo, entries[1..], skip, q);
    }
  }

  /** A node that no accepted file entry overwrites survives unchanged:
      directory entries for existing paths and directory creation along
      the way never replace anything. */
  lemma {:induction false} UnzippedKeeps(fs: FS, extractTo: Path, entries: seq<ZipEntry>, skip: string -> bool, q: Path)
    requires Unzipped(fs, extractTo, entries, skip).Ok? && q in fs
    requires forall i :: 0 <= i < |entries| ==> !Writes(extractTo, entries[i], skip, q)
    ensures var fs' := Unzipped(fs, extractTo, entries, skip).value; q in fs' && fs'[q] == fs[q]
    decreases |entries|
  {
    if |entries| > 0 {
      var fs1 := UnzipStep(fs, extractTo, entries[0], skip).value;
      StepEffect(fs, extractTo, entries[0], skip, q);
      UnzippedKeeps(fs1, extractTo, entries[1..], skip, q);
    }
  }

  /** After a successful unzip the regular files are exactly the ones there
      were before plus the targets of the accepted file entries. */
  lemma {:induction false} UnzippedFiles(fs: FS, extractTo: Path, entries: seq<ZipEntry>, skip: string -> bool, q: Path)
    requires Unzipped(fs, extractTo, entries, skip).Ok?
    ensures IsFile(Unzipped(fs, extractTo, entries, skip).value, q)
        <==> IsFile(fs, q) || exists i :: 0 <= i < |entries| && Writes(extractTo, entries[i], skip, q)
    decreases |entries|
  {
    if |entries| > 0 {
      var fs1 := UnzipStep(fs, extractTo, entries[0], skip).value;
      StepEffect(fs, extractTo, entries[0], skip, q);
      UnzippedFiles(fs1, extractTo, entries[1..], skip, q);
      if exists i :: 0 <= i < |entries| && Writes(extractTo, entries[i], skip, q) {
        var i :| 0 <= i < |entries| && Writes(extractTo, entries[i], skip, q);
        if i > 0 {
          assert entries[1..][i - 1] == entries[i];
        }
      }
      if exists i :: 0 <= i < |entries[1..]| && Writes(extractTo, entries[1..][i], skip, q) {
        var i :| 0 <= i < |entries[1..]| && Writes(extractTo, entries[1..][i], skip, q);
        assert entries[i + 1] == entries[1..][i];
      }
    }
  }

  /** The last accepted file entry aimed at a path decides that file's
      content. */
  lemma {:induction false} UnzippedLastWriter(fs: FS, extractTo: Path, entries: seq<ZipEntry>, skip: string -> bool, k: nat)
    requires Unzipped(fs, extractTo, entries, skip).Ok?
    requires k < |entries| && Writes(extractTo, entries[k], skip, Resolve(extractTo, entries[k].name))
    requires forall j :: k < j < |entries| ==> !Writes(extractTo, entries[j], skip, Resolve(extractTo, entries[k].name))
    ensures var fs', target := Unzipped(fs, extractTo, entries, skip).value, Resolve(extractTo, entries[k].name);
      target in fs' && fs'[target] == File(entries[k].data, true)
    decreases |entries|
  {
    var target := Resolve(extractTo, entries[k].name);
    var fs1 := UnzipStep(fs, extractTo, entries[0], skip).value;
    if k == 0 {
      StepEffect(fs, extractTo, entries[0], skip, target);
      UnzippedKeeps(fs1, extractTo, entries[1..], skip, target);
    } else {
      assert entries[1..][k - 1] == entries[k];
      UnzippedLastWriter(fs1, extractTo, entries[1..], skip, k - 1);
    }
  }

  /** Unzipping keeps the file tree well formed. */
  lemma {:induction false} UnzippedWellFormed(fs: FS, extractTo: Path, entries: seq<ZipEntry>, skip: string -> bool)
    requires WellFormed(fs) && Unzipped(fs, extractTo, entries, skip).Ok?
    ensures WellFormed(Unzipped(fs, extractTo, entries, skip).value)
    decreases |entries|
  {
    if |entries| > 0 {
      var e := entries[0];
      if !skip(e.name) {
        var p := Resolve(extractTo, e.name);
        if !e.IsDirectory() {
          CreateDirectoriesWellFormed(fs, Parent(p));
          WriteFileWellFormed(CreateDirectories(fs, Parent(p)).value, p, e.data);
        } else if !Exists(fs, p) {
          CreateDirectoryWellFormed(fs, p);
        }
      }
      UnzippedWellFormed(UnzipStep(fs, extractTo, e, skip).value, extractTo, entries[1..], skip);
    }
  }

  lemma NamesSnoc(entries: seq<ZipEntry>, e: ZipEntry)
    ensures Names(entries + [e]) == Names(entries) + {e.name}
  {
    var s := entries + [e];
    assert s[|entries|] == e;
    forall n | n in Names(entries)
      ensures n in Names(s)
    {
      var i :| 0 <= i < |entries| && entries[i].name == n;
      assert s[i] == entries[i];
    }
  }

  /** No two entries share a name. */
  predicate DistinctNames(entries: seq<ZipEntry>) {
    forall i, j :: 0 <= i < j < |entries| ==> entries[i].name != entries[j].name
  }

  /** The entry zipDirectory makes for the regular file at `q`. */
  function EntryFor(fs: FS, jarSource: Path, q: Path): ZipEntry
    requires IsPrefix(jarSource, q) && IsFile(fs, q)
  {
    ZipEntry(EntryName(q[|jarSource|..]), fs[q].data)
  }

  /** One entry per regular file of the walk, in walk order. */
  function FileEntries(fs: FS, jarSource: Path, walk: seq<Path>): seq<ZipEntry>
    requires forall i :: 0 <= i < |walk| ==> IsPrefix(jarSource, walk[i])
    decreases |walk|
  {
    if |walk| == 0 then []
    else (if IsFile(fs, walk[0]) then [EntryFor(fs, jarSource, walk[0])] else []) + FileEntries(fs, jarSource, walk[1..])
  }

  /** An entry of FileEntries is the entry of some regular file of the
      walk, and every regular file of the walk has its entry there. */
  lemma {:induction false} FileEntriesMembers(fs: FS, jarSource: Path, walk: seq<Path>, e: ZipEntry)
    requires forall i :: 0 <= i < |walk| ==> IsPrefix(jarSource, walk[i])
    ensures e in FileEntries(fs, jarSource, walk)
        <==> exists i :: 0 <= i < |walk| && IsFile(fs, walk[i]) && e == EntryFor(fs, jarSource, walk[i])
    decreases |walk|
  {
    if |walk| > 0 {
      var rest := walk[1..];
      assert forall i :: 0 <= i < |rest| ==> rest[i] == walk[i + 1];
      FileEntriesMembers(fs, jarSource, rest, e);
      if exists i :: 0 <= i < |walk| && IsFile(fs, walk[i]) && e == EntryFor(fs, jarSource, walk[i]) {
        var i :| 0 <= i < |walk| && IsFile(fs, walk[i]) && e == EntryFor(fs, jarSource, walk[i]);
        if i > 0 {
          assert rest[i - 1] == walk[i];
        }
      }
    }
  }

  /** Packing succeeds only when every regular file of the walk is
      readable, and then appends exactly one entry per regular file, with
      its name relative to the packed directory and its content, in walk
      order; it never produces two entries with one name. */
  lemma {:induction false} PackedEntries(fs: FS, jarSource: Path, walk: seq<Path>, acc: seq<ZipEntry>)
    requires forall i :: 0 <= i < |walk| ==> IsPrefix(jarSource, walk[i])
    requires Packed(fs, jarSource, walk, acc).Ok?
    ensures Packed(fs, jarSource, walk, acc).value == acc + FileEntries(fs, jarSource, walk)
    ensures forall i :: 0 <= i < |walk| && IsFile(fs, walk[i]) ==> fs[walk[i]].readable
    ensures DistinctNames(acc) ==> DistinctNames(Packed(fs, jarSource, walk, acc).value)
    decreases |walk|
  {
    if |walk| > 0 {
      var p := walk[0];
      var rest := walk[1..];
      var acc1 := PackStep(fs, jarSource, p, acc).value;
      assert forall i :: 0 <= i < |rest| ==> rest[i] == walk[i + 1];
      PackedEntries(fs, jarSource, rest, acc1);
      if IsFile(fs, p) {
        assert acc1 == acc + [EntryFor(fs, jarSource, p)];
      } else {
        assert acc1 == acc;
      }
      assert acc + FileEntries(fs, jarSource, walk) == acc1 + FileEntries(fs, jarSource, rest);
      if DistinctNames(acc) && !IsDir(fs, p) {
        assert forall i :: 0 <= i < |acc| ==> acc[i].name in Names(acc);
      }
    }
  }

  /** Packing succeeds when every regular file of the walk can be read
      and no two of them, nor any of them and an earlier entry, get one
      name. */
  lemma {:induction false} PackedSucceeds(fs: FS, jarSource: Path, walk: seq<Path>, acc: seq<ZipEntry>)
    requires forall i :: 0 <= i < |walk| ==> IsPrefix(jarSource, walk[i])
    requires forall i :: 0 <= i < |walk| && walk[i] in fs ==> fs[walk[i]].Dir? || fs[walk[i]].readable
    requires forall i :: 0 <= i < |walk| ==> walk[i] in fs
    requires forall i :: 0 <= i < |walk| && IsPrefix(jarSource, walk[i]) && IsFile(fs, walk[i]) ==>
               EntryName(walk[i][|jarSource|..]) !in Names(acc)
    requires forall i, j ::
               (&& 0 <= i < j < |walk| && IsPrefix(jarSource, walk[i]) && IsPrefix(jarSource, walk[j])
                && IsFile(fs, walk[i]) && IsFile(fs, walk[j])) ==>
               EntryName(walk[i][|jarSource|..]) != EntryName(walk[j][|jarSource|..])
    ensures Packed(fs, jarSource, walk, acc).Ok?
    decreases |walk|
  {
    if |walk| > 0 {
      var p := walk[0];
      var acc1 := PackStep(fs, jarSource, p, acc).value;
      assert forall i :: 0 <= i < |walk[1..]| ==> walk[1..][i] == walk[i + 1];
      if !IsDir(fs, p) {
        NamesSnoc(acc, acc1[|acc|]);
      }
      PackedSucceeds(fs, jarSource, walk[1..], acc1);
    }
  }

  /** A successful zipDirectory walked the directory, packed it, and
      stored the packed entries in the jar it had created. */
  lemma ZipDirectoryShape(fs: FS, jarPath: Path, jarSource: Path, walk: seq<Path>)
    requires ZipDirectoryResult(fs, jarPath, jarSource, walk).Ok?
    ensures var fs1 := fs[jarPath := File([], true)];
      && IsWalk(fs1, jarSource, walk)
      && (forall i :: 0 <= i < |walk| ==> IsPrefix(jarSource, walk[i]))
      && Packed(fs1, jarSource, walk, []).Ok?
      && ZipDirectoryResult(fs, jarPath, jarSource, walk).value
         == fs1[jarPath := File(Encode(Packed(fs1, jarSource, walk, []).value), true)]
  {
    WalkBelowRoot(fs[jarPath := File([], true)], jarSource, walk);
  }

  /** What zipDirectory leaves behind: the jar holds one entry per regular
      file of the packed directory (read after the jar was created), in
      walk order, with distinct names, and nothing else on the file system
      changed. */
  lemma ZipDirectoryArchive(fs: FS, jarPath: Path, jarSource: Path, walk: seq<Path>)
    requires ZipDirectoryResult(fs, jarPath, jarSource, walk).Ok?
    ensures var fs1 := fs[jarPath := File([], true)];
      var fs' := ZipDirectoryResult(fs, jarPath, jarSource, walk).value;
      && IsWalk(fs1, jarSource, walk)
      && (forall i :: 0 <= i < |walk| ==> IsPrefix(jarSource, walk[i]))
      && ReadArchive(fs', jarPath) == Ok(FileEntries(fs1, jarSource, walk))
      && DistinctNames(FileEntries(fs1, jarSource, walk))
      && (forall q :: q != jarPath ==> Agree(fs, fs', q))
  {
    var fs1 := fs[jarPath := File([], true)];
    ZipDirectoryShape(fs, jarPath, jarSource, walk);
    PackedEntries(fs1, jarSource, walk, []);
    var entries := Packed(fs1, jarSource, walk, []).value;
    assert entries == FileEntries(fs1, jarSource, walk);
    WrittenArchive(fs1, jarPath, entries);
  }

  /** An archive written to a file reads back as the same entries. */
  lemma WrittenArchive(fs: FS, jarPath: Path, entries: seq<ZipEntry>)
    ensures ReadArchive(fs[jarPath := File(Encode(entries), true)], jarPath) == Ok(entries)
  {
    DecodeEncode(entries);
    assert ReadFile(fs[jarPath := File(Encode(entries), true)], jarPath) == Ok(Encode(entries));
  }

  /** The archive zipDirectory writes holds an entry exactly for each
      regular file below the packed directory, whatever the walk order. */
  lemma ZipDirectoryEntries(fs: FS, jarPath: Path, jarSource: Path, walk: seq<Path>, e: ZipEntry)
    requires ZipDirectoryResult(fs, jarPath, jarSource, walk).Ok?
    ensures var fs1 := fs[jarPath := File([], true)];
      var fs' := ZipDirectoryResult(fs, jarPath, jarSource, walk).value;
      && ReadArchive(fs', jarPath).Ok?
      && (e in ReadArchive(fs', jarPath).value
          <==> exists q :: q in Subtree(fs1, jarSource) && IsFile(fs1, q) && e == EntryFor(fs1, jarSource, q))
  {
    var fs1 := fs[jarPath := File([], true)];
    ZipDirectoryArchive(fs, jarPath, jarSource, walk);
    FileEntriesMembers(fs1, jarSource, walk, e);
    if exists q :: q in Subtree(fs1, jarSource) && IsFile(fs1, q) && e == EntryFor(fs1, jarSource, q) {
      var q :| q in Subtree(fs1, jarSource) && IsFile(fs1, q) && e == EntryFor(fs1, jarSource, q);
      assert q in (set p | p in walk);
    }
    if exists i :: 0 <= i < |walk| && IsFile(fs1, walk[i]) && e == EntryFor(fs1, jarSource, walk[i]) {
      var i :| 0 <= i < |walk| && IsFile(fs1, walk[i]) && e == EntryFor(fs1, jarSource, walk[i]);
      assert walk[i] in (set p | p in walk);
    }
  }

  /** A path strictly below `root` has a non-empty path relative to it. */
  lemma BelowRoot(root: Path, q: Path)
    requires IsPrefix(root, q) && q != root
    ensures |q[|root|..]| > 0
  {
    assert q[..|root|] == root;
  }

  /** In the entries of a packed directory of plain relative paths, no
      entry after the one for `walk[k]` is extracted to the same place. */
  lemma LaterEntriesMissTarget(fs: FS, jarSource: Path, walk: seq<Path>, dest: Path, k: nat, m: nat)
    requires forall i :: 0 <= i < |walk| ==> IsPrefix(jarSource, walk[i])
    requires !IsFile(fs, jarSource)
    requires forall i :: 0 <= i < |walk| && IsPrefix(jarSource, walk[i]) && IsFile(fs, walk[i]) ==>
               PlainPath(walk[i][|jarSource|..])
    requires DistinctNames(FileEntries(fs, jarSource, walk))
    requires k < |walk| && IsFile(fs, walk[k])
    requires m < |FileEntries(fs, jarSource, walk)| && FileEntries(fs, jarSource, walk)[m] == EntryFor(fs, jarSource, walk[k])
    ensures forall j :: m < j < |FileEntries(fs, jarSource, walk)| ==>
      !Writes(dest, FileEntries(fs, jarSource, walk)[j], AcceptAll, dest + walk[k][|jarSource|..])
  {
    var es := FileEntries(fs, jarSource, walk);
    forall j | m < j < |es|
      ensures !Writes(dest, es[j], AcceptAll, dest + walk[k][|jarSource|..])
    {
      FileEntriesMembers(fs, jarSource, walk, es[j]);
      var i :| 0 <= i < |walk| && IsFile(fs, walk[i]) && es[j] == EntryFor(fs, jarSource, walk[i]);
      OtherNameOtherTarget(jarSource, walk[i], walk[k], dest, es[j]);
    }
  }

  /** Entries with different names for plain relative paths go to
      different places. */
  lemma OtherNameOtherTarget(jarSource: Path, q: Path, q': Path, dest: Path, e: ZipEntry)
    requires IsPrefix(jarSource, q) && IsPrefix(jarSource, q') && q != jarSource && q' != jarSource
    requires PlainPath(q[|jarSource|..]) && PlainPath(q'[|jarSource|..])
    requires e.name == EntryName(q[|jarSource|..]) && e.name != EntryName(q'[|jarSource|..])
    ensures Resolve(dest, e.name) != dest + q'[|jarSource|..]
  {
    BelowRoot(jarSource, q);
    BelowRoot(jarSource, q');
    EntryNameResolves(dest, q[|jarSource|..]);
    var rel, rel' := q[|jarSource|..], q'[|jarSource|..];
    assert rel != rel';
    assert (dest + rel)[|dest|..] == rel && (dest + rel')[|dest|..] == rel';
  }

  /** Packing a directory and unpacking the result below `dest` puts every
      regular file's content at the same relative place below `dest`. */
  lemma PackThenUnzip(fs: FS, jarSource: Path, walk: seq<Path>, fs2: FS, dest: Path, k: nat)
    requires forall i :: 0 <= i < |walk| ==> IsPrefix(jarSource, walk[i])
    requires !IsFile(fs, jarSource)
    requires forall i :: 0 <= i < |walk| && IsPrefix(jarSource, walk[i]) && IsFile(fs, walk[i]) ==>
               PlainPath(walk[i][|jarSource|..])
    requires DistinctNames(FileEntries(fs, jarSource, walk))
    requires Unzipped(fs2, dest, FileEntries(fs, jarSource, walk), AcceptAll).Ok?
    requires k < |walk| && IsFile(fs, walk[k])
    ensures var fs' := Unzipped(fs2, dest, FileEntries(fs, jarSource, walk), AcceptAll).value;
      var target := dest + walk[k][|jarSource|..];
      target in fs' && fs'[target] == File(fs[walk[k]].data, true)
  {
    var es := FileEntries(fs, jarSource, walk);
    var e := EntryFor(fs, jarSource, walk[k]);
    FileEntriesMembers(fs, jarSource, walk, e);
    var m :| 0 <= m < |es| && es[m] == e;
    BelowRoot(jarSource, walk[k]);
    EntryNameResolves(dest, walk[k][|jarSource|..]);
    LaterEntriesMissTarget(fs, jarSource, walk, dest, k, m);
    UnzippedLastWriter(fs2, dest, es, AcceptAll, m);
  }

  /** `a` lies strictly on the way to `b`. */
  predicate StrictPrefix(a: Path, b: Path) {
    IsPrefix(a, b) && |a| < |b|
  }

  /** The paths of the regular files below `root`, relative to it. */
  function RelativeFiles(fs: FS, root: Path): set<Path> {
    set q | q in fs && IsPrefix(root, q) && IsFile(fs, q) :: q[|root|..]
  }

  /** Relative file paths as a file tree has them: non-empty, plain, and
      none on the way to another. */
  predicate FileShape(tree: set<Path>) {
    && (forall r :: r in tree ==> |r| > 0 && PlainPath(r))
    && (forall r1, r2 :: r1 in tree && r2 in tree ==> !StrictPrefix(r1, r2))
  }

  /** The entry is named after a path of `tree`. */
  predicate NamedAfter(e: ZipEntry, tree: set<Path>) {
    exists r :: r in tree && e.name == EntryName(r)
  }

  /** Every entry is named after a path of `tree`. */
  predicate NamedIn(es: seq<ZipEntry>, tree: set<Path>) {
    forall i :: 0 <= i < |es| ==> NamedAfter(es[i], tree)
  }

  /** Every directory from the root down to `dest` exists. */
  predicate DirsTo(fs: FS, dest: Path) {
    forall k :: 0 <= k <= |dest| ==> IsDir(fs, dest[..k])
  }

  /** Below `dest` there is a file only at `dest + r` for `r` in `tree`,
      and a directory only on the way to one. */
  predicate OnlyTree(fs: FS, dest: Path, tree: set<Path>) {
    forall q :: q in fs && StrictPrefix(dest, q) ==>
      if fs[q].File? then q[|dest|..] in tree
      else exists r :: r in tree && StrictPrefix(q[|dest|..], r)
  }

  /** No regular file lies on the way to `dest + r`. */
  lemma NoFileOnTheWay(fs: FS, dest: Path, tree: set<Path>, r: Path)
    requires FileShape(tree) && r in tree && DirsTo(fs, dest) && OnlyTree(fs, dest, tree)
    ensures NoFileOnPath(fs, Parent(dest + r))
  {
    var p := dest + r;
    var pp := Parent(p);
    forall k | 0 < k <= |pp| ensures !IsFile(fs, pp[..k]) {
      var a := pp[..k];
      assert a == p[..k];
      if k <= |dest| {
        assert a == dest[..k];
      } else {
        assert a[..|dest|] == dest;
        assert a[|dest|..] == r[..k - |dest|];
        assert StrictPrefix(a[|dest|..], r);
      }
    }
  }

  /** The directories down to `dest` are nodes of the tree. */
  lemma DirsToNodes(fs: FS, dest: Path)
    requires DirsTo(fs, dest)
    ensures forall a :: IsPrefix(a, dest) && |a| > 0 ==> a in fs && fs[a].Dir?
  {
    forall a | IsPrefix(a, dest) && |a| > 0 ensures a in fs && fs[a].Dir? {
      assert IsDir(fs, dest[..|a|]);
    }
  }

  /** A new node on the way to `dest + r`, given that every node down to
      `dest` already exists, lies strictly between `dest` and it. */
  lemma NewDirBetween(fs: FS, dest: Path, r: Path, q: Path)
    requires |r| > 0 && q != [] && q !in fs && IsPrefix(q, Parent(dest + r))
    requires forall a :: IsPrefix(a, dest) && |a| > 0 ==> a in fs && fs[a].Dir?
    ensures StrictPrefix(dest, q) && StrictPrefix(q[|dest|..], r)
  {
    assert q == (dest + r)[..|q|];
    assert !IsPrefix(q, dest);
    assert q[..|dest|] == dest;
    assert q[|dest|..] == r[..|q| - |dest|];
  }

  /** The directories created on the way to `dest + r` lie strictly
      between `dest` and it. */
  lemma NewDirsBetween(fs: FS, fs1: FS, dest: Path, r: Path)
    requires |r| > 0 && DirsTo(fs, dest) && [] !in fs1
    requires forall q :: q in fs1 && q !in fs ==> IsPrefix(q, Parent(dest + r))
    ensures forall q :: q in fs1 && q !in fs ==> StrictPrefix(dest, q) && StrictPrefix(q[|dest|..], r)
  {
    DirsToNodes(fs, dest);
    forall q | q in fs1 && q !in fs ensures StrictPrefix(dest, q) && StrictPrefix(q[|dest|..], r) {
      NewDirBetween(fs, dest, r, q);
    }
  }

  /** `dest + r` is not a directory when only the way to it was added. */
  lemma TargetNotDir(fs: FS, fs1: FS, dest: Path, tree: set<Path>, r: Path)
    requires FileShape(tree) && r in tree && OnlyTree(fs, dest, tree)
    requires forall q :: q in fs ==> q in fs1 && fs1[q] == fs[q]
    requires forall q :: q in fs1 && q !in fs ==> StrictPrefix(dest, q) && StrictPrefix(q[|dest|..], r)
    ensures !IsDir(fs1, dest + r)
  {
    var p := dest + r;
    assert p[..|dest|] == dest && p[|dest|..] == r;
    if p in fs && fs[p].Dir? {
      assert StrictPrefix(dest, p);
    }
  }

  /** Adding the way to `dest + r` and a file there keeps the shape. */
  lemma OnlyTreeKept(fs: FS, fs1: FS, dest: Path, tree: set<Path>, r: Path, data: seq<byte>)
    requires r in tree && OnlyTree(fs, dest, tree)
    requires forall q :: q in fs ==> q in fs1 && fs1[q] == fs[q]
    requires forall q :: q in fs1 && q !in fs ==>
               StrictPrefix(dest, q) && StrictPrefix(q[|dest|..], r) && fs1[q] == Dir
    ensures OnlyTree(fs1[dest + r := File(data, true)], dest, tree)
  {
    var p := dest + r;
    var fs2 := fs1[p := File(data, true)];
    forall q | q in fs2 && StrictPrefix(dest, q)
      ensures if fs2[q].File? then q[|dest|..] in tree
              else exists r' :: r' in tree && StrictPrefix(q[|dest|..], r')
    {
      if q == p {
        assert q[|dest|..] == r;
      }
    }
  }

  /** A change strictly below `dest` keeps everything outside it, the
      directories down to `dest` included. */
  lemma BelowOnly(fs: FS, fs2: FS, dest: Path)
    requires DirsTo(fs, dest)
    requires forall q :: q in fs && !StrictPrefix(dest, q) ==> q in fs2 && fs2[q] == fs[q]
    requires forall q :: q in fs2 && q !in fs ==> StrictPrefix(dest, q)
    ensures DirsTo(fs2, dest)
    ensures forall q :: !StrictPrefix(dest, q) ==> Agree(fs, fs2, q)
  {
    forall k | 0 <= k <= |dest| ensures IsDir(fs2, dest[..k]) {
      assert IsDir(fs, dest[..k]);
    }
  }

  /** Extracting one file entry named after a path of `tree` succeeds, keeps
      the shape below `dest`, and touches nothing outside it. */
  lemma UnzipTreeStep(fs: FS, dest: Path, e: ZipEntry, tree: set<Path>, r: Path) returns (fs2: FS)
    requires WellFormed(fs) && FileShape(tree) && r in tree && e.name == EntryName(r)
    requires DirsTo(fs, dest) && OnlyTree(fs, dest, tree)
    ensures UnzipStep(fs, dest, e, AcceptAll) == Ok(fs2)
    ensures WellFormed(fs2) && DirsTo(fs2, dest) && OnlyTree(fs2, dest, tree)
    ensures forall q :: !StrictPrefix(dest, q) ==> Agree(fs, fs2, q)
  {
    EntryNameResolves(dest, r);
    var p := dest + r;
    assert p[..|dest|] == dest;
    assert UnzipStep(fs, dest, e, AcceptAll) == ExtractTo(fs, p, e.data);
    NoFileOnTheWay(fs, dest, tree, r);
    var fs1 := CreateDirectories(fs, Parent(p)).value;
    CreateDirectoriesWellFormed(fs, Parent(p));
    assert [] !in fs1;
    NewDirsBetween(fs, fs1, dest, r);
    TargetNotDir(fs, fs1, dest, tree, r);
    fs2 := fs1[p := File(e.data, true)];
    assert ExtractTo(fs, p, e.data) == Ok(fs2);
    WriteFileWellFormed(fs1, p, e.data);
    OnlyTreeKept(fs, fs1, dest, tree, r, e.data);
    BelowOnly(fs, fs2, dest);
  }

  /** Unpacking entries named after the paths of `tree` into a place
      shaped by `tree` succeeds and changes nothing outside `dest`. */
  lemma {:induction false} UnzipTree(fs: FS, dest: Path, es: seq<ZipEntry>, tree: set<Path>)
    requires WellFormed(fs) && FileShape(tree)
    requires NamedIn(es, tree) && DirsTo(fs, dest) && OnlyTree(fs, dest, tree)
    ensures Unzipped(fs, dest, es, AcceptAll).Ok?
    ensures forall q :: !StrictPrefix(dest, q) ==> Agree(fs, Unzipped(fs, dest, es, AcceptAll).value, q)
    decreases |es|
  {
    if |es| > 0 {
      var r :| r in tree && es[0].name == EntryName(r);
      var fs2 := UnzipTreeStep(fs, dest, es[0], tree, r);
      assert forall i :: 0 <= i < |es[1..]| ==> es[1..][i] == es[i + 1];
      UnzipTree(fs2, dest, es[1..], tree);
    }
  }

  /** Each relative file path comes from a regular file below `root`. */
  lemma RelativeFileOf(fs: FS, root: Path, r: Path) returns (q: Path)
    requires r in RelativeFiles(fs, root)
    ensures q in fs && IsPrefix(root, q) && IsFile(fs, q) && r == q[|root|..] && q == root + r
  {
    q :| q in fs && IsPrefix(root, q) && IsFile(fs, q) && r == q[|root|..];
  }

  /** In a well-formed tree the regular files below a directory have the
      shape of a file tree, given plain names. */
  lemma RelativeFilesShape(fs: FS, root: Path)
    requires WellFormed(fs) && !IsFile(fs, root)
    requires forall q :: q in Subtree(fs, root) && IsFile(fs, q) ==> PlainPath(q[|root|..])
    ensures FileShape(RelativeFiles(fs, root))
  {
    var tree := RelativeFiles(fs, root);
    forall r | r in tree ensures |r| > 0 && PlainPath(r) {
      var q := RelativeFileOf(fs, root, r);
      BelowRoot(root, q);
      assert q in Subtree(fs, root);
    }
    forall r1, r2 | r1 in tree && r2 in tree ensures !StrictPrefix(r1, r2) {
      var q1 := RelativeFileOf(fs, root, r1);
      var q2 := RelativeFileOf(fs, root, r2);
      if StrictPrefix(r1, r2) {
        assert q2[..|q1|] == q1;
        AncestorIsDir(fs, q2, q1);
      }
    }
  }

  /** A regular file below `root` has its relative path in RelativeFiles. */
  lemma InRelativeFiles(fs: FS, root: Path, q: Path)
    requires q in fs && IsPrefix(root, q) && IsFile(fs, q)
    ensures q[|root|..] in RelativeFiles(fs, root)
  {
  }

  /** The entry zipDirectory packs for a path of its walk is named after a
      relative file path. */
  lemma EntryNamedInTree(fs: FS, jarSource: Path, walk: seq<Path>, e: ZipEntry)
    requires IsWalk(fs, jarSource, walk)
    requires forall i :: 0 <= i < |walk| ==> IsPrefix(jarSource, walk[i])
    requires e in FileEntries(fs, jarSource, walk)
    ensures NamedAfter(e, RelativeFiles(fs, jarSource))
  {
    FileEntriesMembers(fs, jarSource, walk, e);
    var j :| 0 <= j < |walk| && IsFile(fs, walk[j]) && e == EntryFor(fs, jarSource, walk[j]);
    assert walk[j] in (set p | p in walk);
    InRelativeFiles(fs, jarSource, walk[j]);
  }

  /** Every entry zipDirectory packs is named after a relative file path. */
  lemma EntriesNamedInTree(fs: FS, jarSource: Path, walk: seq<Path>)
    requires IsWalk(fs, jarSource, walk)
    requires forall i :: 0 <= i < |walk| ==> IsPrefix(jarSource, walk[i])
    ensures NamedIn(FileEntries(fs, jarSource, walk), RelativeFiles(fs, jarSource))
  {
    var es := FileEntries(fs, jarSource, walk);
    forall i | 0 <= i < |es| ensures NamedAfter(es[i], RelativeFiles(fs, jarSource)) {
      EntryNamedInTree(fs, jarSource, walk, es[i]);
    }
  }

  /** In a well-formed tree every directory down to an existing directory
      exists. */
  lemma DirsToDir(fs: FS, dest: Path)
    requires WellFormed(fs) && IsDir(fs, dest)
    ensures DirsTo(fs, dest)
  {
    forall k | 0 <= k <= |dest| ensures IsDir(fs, dest[..k]) {
      if 0 < k < |dest| {
        AncestorIsDir(fs, dest, dest[..k]);
      } else if k == |dest| {
        assert dest[..k] == dest;
      }
    }
  }

  /** zipDirectory keeps the file tree well formed. */
  lemma ZipDirectoryWellFormed(fs: FS, jar: Path, jarSource: Path, walk: seq<Path>)
    requires WellFormed(fs) && ZipDirectoryResult(fs, jar, jarSource, walk).Ok?
    ensures WellFormed(fs[jar := File([], true)])
    ensures WellFormed(ZipDirectoryResult(fs, jar, jarSource, walk).value)
  {
    var fs1 := fs[jar := File([], true)];
    ZipDirectoryShape(fs, jar, jarSource, walk);
    WriteFileWellFormed(fs, jar, []);
    WriteFileWellFormed(fs1, jar, Encode(Packed(fs1, jarSource, walk, []).value));
  }

  /** zipDirectory's jar unpacked into an empty directory of the same file
      system: the unzip succeeds and changes nothing outside `dest`. */
  lemma ZipThenUnzip(fs: FS, jar: Path, jarSource: Path, walk: seq<Path>, dest: Path)
    requires WellFormed(fs) && ZipDirectoryResult(fs, jar, jarSource, walk).Ok?
    requires var fs1 := fs[jar := File([], true)];
      && !IsFile(fs1, jarSource)
      && forall q :: q in Subtree(fs1, jarSource) && IsFile(fs1, q) ==> PlainPath(q[|jarSource|..])
    requires var fs' := ZipDirectoryResult(fs, jar, jarSource, walk).value;
      IsDir(fs', dest) && forall q :: q in fs' && IsPrefix(dest, q) ==> q == dest
    ensures var fs' := ZipDirectoryResult(fs, jar, jarSource, walk).value;
      UnzipFile(fs', jar, dest, AcceptAll).Ok?
    ensures var fs' := ZipDirectoryResult(fs, jar, jarSource, walk).value;
      forall q :: !StrictPrefix(dest, q) ==> Agree(fs', UnzipFile(fs', jar, dest, AcceptAll).value, q)
  {
    var fs1 := fs[jar := File([], true)];
    var fs' := ZipDirectoryResult(fs, jar, jarSource, walk).value;
    ZipDirectoryArchive(fs, jar, jarSource, walk);
    ZipDirectoryWellFormed(fs, jar, jarSource, walk);
    var es := FileEntries(fs1, jarSource, walk);
    var tree := RelativeFiles(fs1, jarSource);
    RelativeFilesShape(fs1, jarSource);
    EntriesNamedInTree(fs1, jarSource, walk);
    DirsToDir(fs', dest);
    UnzipTree(fs', dest, es, tree);
  }

  /** For a packed directory of plain relative paths, some entry is
      extracted to `q` below `dest` exactly when `q` is at the relative
      path of a regular file below the packed directory. */
  lemma WrittenIffRelative(fs: FS, jarSource: Path, walk: seq<Path>, dest: Path, q: Path)
    requires IsWalk(fs, jarSource, walk) && !IsFile(fs, jarSource)
    requires forall i :: 0 <= i < |walk| ==> IsPrefix(jarSource, walk[i])
    requires forall p :: p in Subtree(fs, jarSource) && IsFile(fs, p) ==> PlainPath(p[|jarSource|..])
    requires StrictPrefix(dest, q)
    ensures var es := FileEntries(fs, jarSource, walk);
      (exists i :: 0 <= i < |es| && Writes(dest, es[i], AcceptAll, q)) <==> q[|dest|..] in RelativeFiles(fs, jarSource)
  {
    var es := FileEntries(fs, jarSource, walk);
    var walkSet := set p | p in walk;
    if exists i :: 0 <= i < |es| && Writes(dest, es[i], AcceptAll, q) {
      var i :| 0 <= i < |es| && Writes(dest, es[i], AcceptAll, q);
      FileEntriesMembers(fs, jarSource, walk, es[i]);
      var j :| 0 <= j < |walk| && IsFile(fs, walk[j]) && es[i] == EntryFor(fs, jarSource, walk[j]);
      assert walk[j] in walkSet;
      BelowRoot(jarSource, walk[j]);
      EntryNameResolves(dest, walk[j][|jarSource|..]);
      assert q[|dest|..] == walk[j][|jarSource|..];
    }
    if q[|dest|..] in RelativeFiles(fs, jarSource) {
      var p := RelativeFileOf(fs, jarSource, q[|dest|..]);
      assert p in walkSet;
      FileEntriesMembers(fs, jarSource, walk, EntryFor(fs, jarSource, p));
      var i :| 0 <= i < |es| && es[i] == EntryFor(fs, jarSource, p);
      BelowRoot(jarSource, p);
      EntryNameResolves(dest, p[|jarSource|..]);
      assert q == dest + q[|dest|..];
      assert Writes(dest, es[i], AcceptAll, q);
    }
  }

  /** zipDirectory's jar unpacked into an empty directory: the regular
      files below `dest` are exactly those at the relative paths of the
      regular files below the packed directory. */
  lemma ZipThenUnzipFiles(fs: FS, jar: Path, jarSource: Path, walk: seq<Path>, dest: Path)
    requires WellFormed(fs) && ZipDirectoryResult(fs, jar, jarSource, walk).Ok?
    requires var fs1 := fs[jar := File([], true)];
      && !IsFile(fs1, jarSource)
      && forall q :: q in Subtree(fs1, jarSource) && IsFile(fs1, q) ==> PlainPath(q[|jarSource|..])
    requires var fs' := ZipDirectoryResult(fs, jar, jarSource, walk).value;
      IsDir(fs', dest) && forall q :: q in fs' && IsPrefix(dest, q) ==> q == dest
    ensures var fs' := ZipDirectoryResult(fs, jar, jarSource, walk).value;
      && UnzipFile(fs', jar, dest, AcceptAll).Ok?
      && forall q :: StrictPrefix(dest, q) ==>
           (IsFile(UnzipFile(fs', jar, dest, AcceptAll).value, q)
            <==> q[|dest|..] in RelativeFiles(fs[jar := File([], true)], jarSource))
  {
    var fs1 := fs[jar := File([], true)];
    var fs' := ZipDirectoryResult(fs, jar, jarSource, walk).value;
    ZipThenUnzip(fs, jar, jarSource, walk, dest);
    ZipDirectoryArchive(fs, jar, jarSource, walk);
    var es := FileEntries(fs1, jarSource, walk);
    forall q | StrictPrefix(dest, q)
      ensures IsFile(Unzipped(fs', dest, es, AcceptAll).value, q) <==> q[|dest|..] in RelativeFiles(fs1, jarSource)
    {
      UnzippedFiles(fs', dest, es, AcceptAll, q);
      WrittenIffRelative(fs1, jarSource, walk, dest, q);
    }
  }

  /** zipDirectory's jar unpacked into an empty directory: each regular
      file below the packed directory reappears at its relative path below
      `dest` with the same bytes. */
  lemma ZipThenUnzipData(fs: FS, jar: Path, jarSource: Path, walk: seq<Path>, dest: Path)
    requires WellFormed(fs) && ZipDirectoryResult(fs, jar, jarSource, walk).Ok?
    requires var fs1 := fs[jar := File([], true)];
      && !IsFile(fs1, jarSource)
      && forall q :: q in Subtree(fs1, jarSource) && IsFile(fs1, q) ==> PlainPath(q[|jarSource|..])
    requires var fs' := ZipDirectoryResult(fs, jar, jarSource, walk).value;
      IsDir(fs', dest) && forall q :: q in fs' && IsPrefix(dest, q) ==> q == dest
    ensures var fs1, fs' := fs[jar := File([], true)], ZipDirectoryResult(fs, jar, jarSource, walk).value;
      && UnzipFile(fs', jar, dest, AcceptAll).Ok?
      && forall p :: p in Subtree(fs1, jarSource) && IsFile(fs1, p) ==>
           var target := dest + p[|jarSource|..];
           && target in UnzipFile(fs', jar, dest, AcceptAll).value
           && UnzipFile(fs', jar, dest, AcceptAll).value[target] == File(fs1[p].data, true)
  {
    var fs1 := fs[jar := File([], true)];
    var fs' := ZipDirectoryResult(fs, jar, jarSource, walk).value;
    ZipThenUnzip(fs, jar, jarSource, walk, dest);
    ZipDirectoryArchive(fs, jar, jarSource, walk);
    var es := FileEntries(fs1, jarSource, walk);
    var walkSet := set p | p in walk;
    forall p | p in Subtree(fs1, jarSource) && IsFile(fs1, p)
      ensures var target := dest + p[|jarSource|..];
        target in Unzipped(fs', dest, es, AcceptAll).value
        && Unzipped(fs', dest, es, AcceptAll).value[target] == File(fs1[p].data, true)
    {
      assert p in walkSet;
      var k :| 0 <= k < |walk| && walk[k] == p;
      PackThenUnzip(fs1, jarSource, walk, fs', dest, k);
    }
  }
}
