/** Packing a directory into a jar and unpacking a jar into a directory,
    as Deployer.java does it (zipDirectory, addToZipFile, unzip,
    extractFile). Each method is tied to a function that gives its effect
    on the file system; the laws about those functions are in ArchiveLaws. */
module ArchiveCodec {
  import opened Base
  import opened Text
  import opened Paths
  import opened FileTree
  import opened Archive
  import opened Io

  /** The skip predicate that accepts every entry. */
  const AcceptAll: string -> bool := (name: string) => false

  /** extractFile: create the parent directories, then write the entry's
      bytes over whatever file is at `filePath`. */
  function ExtractTo(fs: FS, filePath: Path, data: seq<byte>): Result<FS> {
    if |filePath| == 0 then Err(NoParent)
    else
      var fs1 :- CreateDirectories(fs, Parent(filePath));
      WriteFile(fs1, filePath, data)
  }

  /** An entry unzip does not skip, written to `filePath`: a file entry is
      extracted, a directory entry is created only when absent. */
  function EntryStep(fs: FS, filePath: Path, e: ZipEntry): Result<FS> {
    if !e.IsDirectory() then ExtractTo(fs, filePath, e.data)
    else if Exists(fs, filePath) then Ok(fs)
    else CreateDirectory(fs, filePath)
  }

  /** One turn of unzip's loop: a skipped entry changes nothing, any other
      is written where its name resolves below `extractTo`. */
  function UnzipStep(fs: FS, extractTo: Path, e: ZipEntry, skip: string -> bool): Result<FS> {
    if skip(e.name) then Ok(fs) else EntryStep(fs, Resolve(extractTo, e.name), e)
  }

  /** The entries processed in archive order; the first failure ends it. */
  function Unzipped(fs: FS, extractTo: Path, entries: seq<ZipEntry>, skip: string -> bool): Result<FS>
    decreases |entries|
  {
    if |entries| == 0 then Ok(fs)
    else
      var fs1 :- UnzipStep(fs, extractTo, entries[0], skip);
      Unzipped(fs1, extractTo, entries[1..], skip)
  }

  /** unzip(zipFilePath, extractTo, skip) */
  function UnzipFile(fs: FS, zipFilePath: Path, extractTo: Path, skip: string -> bool): Result<FS> {
    var entries :- ReadArchive(fs, zipFilePath);
    Unzipped(fs, extractTo, entries, skip)
  }

  /** One path of zipDirectory's walk: a directory adds nothing; a file is
      read and added under its relative name, unless that name is taken. */
  function PackStep(fs: FS, jarSource: Path, p: Path, entries: seq<ZipEntry>): Result<seq<ZipEntry>>
    requires IsPrefix(jarSource, p)
  {
    if IsDir(fs, p) then Ok(entries)
    else
      var data :- ReadFile(fs, p);
      var name := EntryName(p[|jarSource|..]);
      if name in Names(entries) then Err(DuplicateEntry(name))
      else Ok(entries + [ZipEntry(name, data)])
  }

  /** The entries after packing the walked paths, in walk order. */
  function Packed(fs: FS, jarSource: Path, walk: seq<Path>, entries: seq<ZipEntry>): Result<seq<ZipEntry>>
    requires forall i :: 0 <= i < |walk| ==> IsPrefix(jarSource, walk[i])
    decreases |walk|
  {
    if |walk| == 0 then Ok(entries)
    else
      var entries1 :- PackStep(fs, jarSource, walk[0], entries);
      Packed(fs, jarSource, walk[1..], entries1)
  }

  /** zipDirectory(jarPath, jarSource), the walk visiting `walk`: the jar is
      created first, then filled with the packed entries. */
  function ZipDirectoryResult(fs: FS, jarPath: Path, jarSource: Path, walk: seq<Path>): Result<FS> {
    var fs1 :- WriteFile(fs, jarPath, []);
    if jarSource !in fs1 then Err(NoSuchFile(jarSource))
    else if !IsWalk(fs1, jarSource, walk) then Err(NoSuchFile(jarSource))
    else
      WalkBelowRoot(fs1, jarSource, walk);
      var entries :- Packed(fs1, jarSource, walk, []);
      Ok(fs1[jarPath := File(Encode(entries), true)])
  }

  /** The walk zipDirectory reports is a walk of the directory it packs,
      taken after the jar was created, whenever the directory exists then:
      a walk that is not one could only come from a call that failed
      before walking. */
  predicate ZipWalk(fs: FS, jarPath: Path, jarSource: Path, walk: seq<Path>) {
    var created := WriteFile(fs, jarPath, []);
    created.Ok? && jarSource in created.value ==> IsWalk(created.value, jarSource, walk)
  }

  /** A path the walk of `root` yields lies below `root`. */
  lemma WalkBelowRoot(fs: FS, root: Path, walk: seq<Path>)
    requires IsWalk(fs, root, walk)
    ensures forall i :: 0 <= i < |walk| ==> IsPrefix(root, walk[i])
  {
    forall i | 0 <= i < |walk|
      ensures IsPrefix(root, walk[i])
    {
      assert walk[i] in (set q | q in walk);
      assert walk[i] in Subtree(fs, root);
    }
  }

  /** Adjacent slices join into one. */
  lemma SlicesJoin(s: seq<byte>, i: nat, j: nat, k: nat)
    requires i <= j <= k <= |s|
    ensures s[i..j] + s[j..k] == s[i..k]
  {
  }

  /** addToZipFile: opens an entry and copies the stream into it through a
      1024-byte buffer, until read reports the end. */
  method AddToZipFile(entryName: string, stream: ByteInput, zos: ZipOut) returns (r: Outcome)
    requires stream.pos <= |stream.data|
    modifies stream, zos
    ensures r == (if entryName in Names(old(zos.entries)) then Fail(DuplicateEntry(entryName)) else Pass)
    ensures zos.entries == if r.Pass? then old(zos.entries) + [ZipEntry(entryName, stream.data[old(stream.pos)..])]
                           else old(zos.entries)
  {
    var bytes := new byte[1024];
    :- zos.PutNextEntry(entryName);
    ghost var start := stream.pos;
    ghost var before := old(zos.entries);
    var length := stream.Read(bytes);
    ghost var copied := start;
    while length >= 0
      invariant start <= copied <= stream.pos <= |stream.data|
      invariant |zos.entries| == |before| + 1 && zos.entries[..|before|] == before
      invariant zos.entries[|before|] == ZipEntry(entryName, stream.data[start..copied])
      invariant length < 0 ==> length == -1 && copied == stream.pos == |stream.data|
      invariant length >= 0 ==>
        && 1 <= length <= bytes.Length && copied == stream.pos - length
        && bytes[..length] == stream.data[copied..stream.pos]
      decreases |stream.data| - copied
    {
      zos.Write(bytes, 0, length);
      assert bytes[0..length] == bytes[..length];
      SlicesJoin(stream.data, start, copied, stream.pos);
      copied := stream.pos;
      assert zos.entries[|before|] == ZipEntry(entryName, stream.data[start..copied]);
      length := stream.Read(bytes);
    }
    assert stream.data[start..copied] == stream.data[start..];
    assert zos.entries == before + [zos.entries[|before|]];
    r := Pass;
  }

  /** The copy loop of extractFile: reads the current entry through a
      1024-byte buffer to its end, collecting what the output stream is
      given. */
  method CopyEntry(zipIn: ZipIn) returns (written: seq<byte>)
    requires 0 < zipIn.next <= |zipIn.entries| && zipIn.pos == 0
    modifies zipIn
    ensures zipIn.next == old(zipIn.next)
    ensures written == zipIn.entries[zipIn.next - 1].data
  {
    ghost var data := zipIn.entries[zipIn.next - 1].data;
    var bytesIn := new byte[1024];
    written := [];
    var read := zipIn.Read(bytesIn);
    while read != -1
      invariant zipIn.next == old(zipIn.next) && zipIn.pos <= |data|
      invariant read == -1 ==> zipIn.pos == |data| && written == data
      invariant read != -1 ==>
        && 1 <= read <= bytesIn.Length && read <= zipIn.pos
        && written == data[..zipIn.pos - read]
        && bytesIn[..read] == data[zipIn.pos - read..zipIn.pos]
      decreases |data| - zipIn.pos + (if read == -1 then 0 else 1)
    {
      ghost var pos0 := zipIn.pos;
      written := written + bytesIn[..read];
      assert written == data[..pos0];
      read := zipIn.Read(bytesIn);
      if read == -1 {
        assert data[..|data|] == data;
      }
    }
  }

  /** extractFile: creates the parent directories, then copies the current
      entry into the file. */
  method ExtractFile(fs: FileSystem, zipIn: ZipIn, filePath: Path) returns (r: Outcome)
    requires 0 < zipIn.next <= |zipIn.entries| && zipIn.pos == 0
    modifies fs, zipIn
    ensures zipIn.next == old(zipIn.next)
    ensures r == StatusOf(ExtractTo(old(fs.nodes), filePath, zipIn.entries[zipIn.next - 1].data))
    ensures r.Pass? ==> fs.nodes == ExtractTo(old(fs.nodes), filePath, zipIn.entries[zipIn.next - 1].data).value
  {
    if |filePath| == 0 {
      return Fail(NoParent);
    }
    :- fs.CreateDirectories(Parent(filePath));
    :- fs.NewOutputStream(filePath);
    var written := CopyEntry(zipIn);
    fs.Store(filePath, written);
    r := Pass;
  }

  /** The body of unzip's loop for the current entry, whose name is
      `name`. */
  method UnzipEntry(fs: FileSystem, zipIn: ZipIn, extractTo: Path, skip: string -> bool, name: string) returns (r: Outcome)
    requires 0 < zipIn.next <= |zipIn.entries| && zipIn.pos == 0 && name == zipIn.entries[zipIn.next - 1].name
    modifies fs, zipIn
    ensures zipIn.next == old(zipIn.next)
    ensures r == StatusOf(UnzipStep(old(fs.nodes), extractTo, zipIn.entries[zipIn.next - 1], skip))
    ensures r.Pass? ==> fs.nodes == UnzipStep(old(fs.nodes), extractTo, zipIn.entries[zipIn.next - 1], skip).value
  {
    if skip(name) {
      r := Pass;
    } else {
      var filePath := Resolve(extractTo, name);
      ghost var e := zipIn.entries[zipIn.next - 1];
      assert UnzipStep(fs.nodes, extractTo, e, skip) == EntryStep(fs.nodes, filePath, e);
      r := WriteEntry(fs, zipIn, filePath);
    }
  }

  /** The current entry, not skipped, written to `filePath`. */
  method WriteEntry(fs: FileSystem, zipIn: ZipIn, filePath: Path) returns (r: Outcome)
    requires 0 < zipIn.next <= |zipIn.entries| && zipIn.pos == 0
    modifies fs, zipIn
    ensures zipIn.next == old(zipIn.next)
    ensures r == StatusOf(EntryStep(old(fs.nodes), filePath, zipIn.entries[zipIn.next - 1]))
    ensures r.Pass? ==> fs.nodes == EntryStep(old(fs.nodes), filePath, zipIn.entries[zipIn.next - 1]).value
  {
    if !EndsWith(zipIn.entries[zipIn.next - 1].name, "/") {
      r := ExtractFile(fs, zipIn, filePath);
    } else {
      r := Pass;
      var present := fs.Exists(filePath);
      if !present {
        r := fs.CreateDirectory(filePath);
      }
    }
  }

  /** unzip: walks the archive's entries in order and applies the skip
      predicate to each raw entry name. */
  method Unzip(fs: FileSystem, zipFilePath: Path, extractTo: Path, skip: string -> bool) returns (r: Outcome)
    modifies fs
    ensures r == StatusOf(UnzipFile(old(fs.nodes), zipFilePath, extractTo, skip))
    ensures r.Pass? ==> fs.nodes == UnzipFile(old(fs.nodes), zipFilePath, extractTo, skip).value
  {
    var zipIn :- fs.OpenZip(zipFilePath);
    ghost var entries := zipIn.entries;
    ghost var spec := Unzipped(fs.nodes, extractTo, entries, skip);
    var entry := zipIn.GetNextEntry();
    while entry.Some?
      invariant zipIn.entries == entries && zipIn.next <= |entries|
      invariant entry.Some? ==> 0 < zipIn.next && entry.value == entries[zipIn.next - 1].name && zipIn.pos == 0
      invariant entry.None? ==> zipIn.next == |entries|
      invariant spec == Unzipped(fs.nodes, extractTo, entries[(if entry.Some? then zipIn.next - 1 else zipIn.next)..], skip)
      decreases |entries| - zipIn.next + (if entry.Some? then 1 else 0)
    {
      ghost var k := zipIn.next - 1;
      assert entries[k..][1..] == entries[k + 1..];
      :- UnzipEntry(fs, zipIn, extractTo, skip, entry.value);
      entry := zipIn.GetNextEntry();
    }
    r := Pass;
  }

  /** zipDirectory: creates the jar, then adds every regular file the walk
      of `jarSource` visits under its path relative to `jarSource`. The
      order is the walk's, returned as `walk`. */
  method ZipDirectory(fs: FileSystem, jarPath: Path, jarSource: Path) returns (r: Outcome, ghost walk: seq<Path>)
    modifies fs
    ensures r == StatusOf(ZipDirectoryResult(old(fs.nodes), jarPath, jarSource, walk))
    ensures r.Pass? ==> fs.nodes == ZipDirectoryResult(old(fs.nodes), jarPath, jarSource, walk).value
    ensures ZipWalk(old(fs.nodes), jarPath, jarSource, walk)
  {
    walk := [];
    r := fs.NewOutputStream(jarPath);
    if r.Fail? {
      return;
    }
    ghost var fs1 := fs.nodes;
    var zos := new ZipOut();
    var paths;
    r, paths := fs.Walk(jarSource);
    if r.Fail? {
      return;
    }
    walk := paths;
    WalkBelowRoot(fs1, jarSource, paths);
    var i := 0;
    while i < |paths|
      invariant 0 <= i <= |paths| && fs.nodes == fs1
      invariant Packed(fs1, jarSource, paths, []) == Packed(fs1, jarSource, paths[i..], zos.entries)
    {
      assert paths[i..][1..] == paths[i + 1..];
      var p := paths[i];
      var isDir := fs.IsDirectory(p);
      if !isDir {
        var entryName := EntryName(p[|jarSource|..]);
        var stream;
        r, stream := fs.NewInputStream(p);
        if r.Fail? {
          return;
        }
        r := AddToZipFile(entryName, stream, zos);
        if r.Fail? {
          return;
        }
      }
      i := i + 1;
    }
    fs.Store(jarPath, Encode(zos.entries));
    r := Pass;
  }
}
