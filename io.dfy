/** The mutable environment the deployer works on: the file system (the
    static java.nio.file.Files calls act on it), plain input streams, and
    the java.util.zip entry streams. */
module Io {
  import opened Base
  import opened Text
  import opened FileTree
  import opened Archive

  /** The process's file system. Every method performs one Files call:
      on success the nodes become the value the FileTree function gives,
      on failure they stay as they were. */
  class FileSystem {
    var nodes: FS

    constructor (initial: FS)
      ensures nodes == initial
    {
      nodes := initial;
    }

    /** Files.exists */
    method Exists(p: Path) returns (b: bool)
      ensures b == FileTree.Exists(nodes, p)
    {
      b := p == [] || p in nodes;
    }

    /** Files.isDirectory */
    method IsDirectory(p: Path) returns (b: bool)
      ensures b == IsDir(nodes, p)
    {
      b := p == [] || (p in nodes && nodes[p].Dir?);
    }

    /** Files.createDirectory */
    method CreateDirectory(p: Path) returns (r: Outcome)
      modifies this
      ensures r == StatusOf(FileTree.CreateDirectory(old(nodes), p))
      ensures nodes == After(old(nodes), FileTree.CreateDirectory(old(nodes), p))
    {
      var res := FileTree.CreateDirectory(nodes, p);
      r := StatusOf(res);
      nodes := After(nodes, res);
    }

    /** Files.createDirectories */
    method CreateDirectories(p: Path) returns (r: Outcome)
      modifies this
      ensures r == StatusOf(FileTree.CreateDirectories(old(nodes), p))
      ensures nodes == After(old(nodes), FileTree.CreateDirectories(old(nodes), p))
    {
      var res := FileTree.CreateDirectories(nodes, p);
      r := StatusOf(res);
      nodes := After(nodes, res);
    }

    /** MoreFiles.deleteRecursively on an existing path. */
    method DeleteRecursively(p: Path) returns (r: Outcome)
      modifies this
      ensures r == (if p in old(nodes) then Pass else Fail(NoSuchFile(p)))
      ensures nodes == if r.Pass? then FileTree.DeleteRecursively(old(nodes), p) else old(nodes)
    {
      if p !in nodes {
        return Fail(NoSuchFile(p));
      }
      nodes := FileTree.DeleteRecursively(nodes, p);
      r := Pass;
    }

    /** Files.deleteIfExists */
    method DeleteIfExists(p: Path) returns (r: Outcome)
      modifies this
      ensures r == StatusOf(FileTree.DeleteIfExists(old(nodes), p))
      ensures nodes == After(old(nodes), FileTree.DeleteIfExists(old(nodes), p))
    {
      var res := FileTree.DeleteIfExists(nodes, p);
      r := StatusOf(res);
      nodes := After(nodes, res);
    }

    /** MoreFiles.deleteRecursively when `dir` exists, then
        Files.createDirectory. A failure after the deletion leaves the
        directory deleted. */
    method Recreate(dir: Path) returns (r: Outcome)
      modifies this
      ensures r == StatusOf(Recreated(old(nodes), dir))
      ensures r.Pass? ==> nodes == Recreated(old(nodes), dir).value
    {
      var present := Exists(dir);
      if present {
        r := DeleteRecursively(dir);
        if r.Fail? {
          return;
        }
      }
      assert Recreated(old(nodes), dir) == FileTree.CreateDirectory(nodes, dir);
      r := CreateDirectory(dir);
    }

    /** Files.copy(InputStream, Path) of a downloaded byte stream. */
    method Copy(data: seq<byte>, p: Path) returns (r: Outcome)
      modifies this
      ensures r == StatusOf(CopyIn(old(nodes), p, data))
      ensures nodes == After(old(nodes), CopyIn(old(nodes), p, data))
    {
      var res := CopyIn(nodes, p, data);
      r := StatusOf(res);
      nodes := After(nodes, res);
    }

    /** Files.newOutputStream: creates or truncates the file at `p`. */
    method NewOutputStream(p: Path) returns (r: Outcome)
      modifies this
      ensures r == StatusOf(WriteFile(old(nodes), p, []))
      ensures nodes == After(old(nodes), WriteFile(old(nodes), p, []))
    {
      var res := WriteFile(nodes, p, []);
      r := StatusOf(res);
      nodes := After(nodes, res);
    }

    /** Closing an output stream opened on `p`: the file holds `data`. */
    method Store(p: Path, data: seq<byte>)
      requires IsFile(nodes, p)
      modifies this
      ensures nodes == old(nodes)[p := File(data, true)]
    {
      nodes := nodes[p := File(data, true)];
    }

    /** Files.newInputStream */
    method NewInputStream(p: Path) returns (r: Outcome, s: ByteInput?)
      ensures r == StatusOf(ReadFile(nodes, p))
      ensures r.Pass? ==> s != null && fresh(s) && s.data == nodes[p].data && s.pos == 0
    {
      var res := ReadFile(nodes, p);
      r := StatusOf(res);
      s := null;
      if res.Ok? {
        s := new ByteInput(res.value);
      }
    }

    /** new ZipInputStream(Files.newInputStream(p)): the archive the file
        holds, read as a whole when it is opened. */
    method OpenZip(p: Path) returns (r: Outcome, z: ZipIn?)
      ensures r == StatusOf(ReadArchive(nodes, p))
      ensures r.Pass? ==> z != null && fresh(z) && z.entries == ReadArchive(nodes, p).value
      ensures r.Pass? ==> z.next == 0 && z.pos == 0
    {
      var res := ReadArchive(nodes, p);
      r := StatusOf(res);
      z := null;
      if res.Ok? {
        z := new ZipIn(res.value);
      }
    }

    /** Files.walk(root): `root` and everything below it, each once, in an
        order the file system chooses. */
    method Walk(root: Path) returns (r: Outcome, paths: seq<Path>)
      ensures r == (if root in nodes then Pass else Fail(NoSuchFile(root)))
      ensures r.Pass? ==> IsWalk(nodes, root, paths)
    {
      paths := [];
      if root !in nodes {
        return Fail(NoSuchFile(root)), [];
      }
      var rest := Subtree(nodes, root);
      while rest != {}
        invariant rest !! (set q | q in paths)
        invariant rest + (set q | q in paths) == Subtree(nodes, root)
        invariant forall i, j :: 0 <= i < j < |paths| ==> paths[i] != paths[j]
        decreases rest
      {
        var q :| q in rest;
        paths := paths + [q];
        rest := rest - {q};
      }
      r := Pass;
    }
  }

  /** The archive stored in the file at `p`; bytes that are not one are a
      MalformedArchive. */
  function ReadArchive(fs: FS, p: Path): Result<seq<ZipEntry>> {
    var bytes :- ReadFile(fs, p);
    match Decode(bytes)
    case None => Err(MalformedArchive(p))
    case Some(entries) => Ok(entries)
  }

  /** `paths` lists the subtree of `root` exactly, each path once. */
  predicate IsWalk(fs: FS, root: Path, paths: seq<Path>) {
    && (forall i, j :: 0 <= i < j < |paths| ==> paths[i] != paths[j])
    && (set q | q in paths) == Subtree(fs, root)
  }

  /** An InputStream over bytes already in memory (a file's content). */
  class ByteInput {
    const data: seq<byte>
    var pos: nat

    constructor (data: seq<byte>)
      ensures this.data == data && pos == 0
    {
      this.data := data;
      pos := 0;
    }

    /** InputStream.read(byte[]): -1 at the end, otherwise between one byte
        and a full buffer, as many as the stream chooses to hand over. */
    method Read(buf: array<byte>) returns (n: int)
      requires buf.Length > 0 && pos <= |data|
      modifies this, buf
      ensures pos <= |data|
      ensures n == -1 ==> old(pos) == |data| && pos == old(pos)
      ensures n != -1 ==> 1 <= n <= buf.Length && pos == old(pos) + n && buf[..n] == data[old(pos)..pos]
    {
      if pos == |data| {
        return -1;
      }
      n :| 1 <= n <= buf.Length && pos + n <= |data|;
      forall i | 0 <= i < n {
        buf[i] := data[pos + i];
      }
      pos := pos + n;
    }
  }

  /** A ZipInputStream over an archive: `next` entries have been handed
      out, and `pos` bytes of the current one have been read. */
  class ZipIn {
    const entries: seq<ZipEntry>
    var next: nat
    var pos: nat

    constructor (entries: seq<ZipEntry>)
      ensures this.entries == entries && next == 0 && pos == 0
    {
      this.entries := entries;
      next := 0;
      pos := 0;
    }

    /** ZipInputStream.getNextEntry: the next entry's name, or None after
        the last entry. */
    method GetNextEntry() returns (name: Option<string>)
      requires next <= |entries|
      modifies this
      ensures next <= |entries| && pos == 0
      ensures old(next) < |entries| ==> next == old(next) + 1 && name == Some(entries[old(next)].name)
      ensures old(next) == |entries| ==> next == old(next) && name == None
    {
      pos := 0;
      if next < |entries| {
        name := Some(entries[next].name);
        next := next + 1;
      } else {
        name := None;
      }
    }

    /** ZipInputStream.read(byte[]) within the current entry. */
    method Read(buf: array<byte>) returns (n: int)
      requires buf.Length > 0 && 0 < next <= |entries| && pos <= |entries[next - 1].data|
      modifies this, buf
      ensures next == old(next) && pos <= |entries[next - 1].data|
      ensures n == -1 ==> old(pos) == |entries[next - 1].data| && pos == old(pos)
      ensures n != -1 ==>
        1 <= n <= buf.Length && pos == old(pos) + n && buf[..n] == entries[next - 1].data[old(pos)..pos]
    {
      var data := entries[next - 1].data;
      if pos == |data| {
        return -1;
      }
      n :| 1 <= n <= buf.Length && pos + n <= |data|;
      forall i | 0 <= i < n {
        buf[i] := data[pos + i];
      }
      pos := pos + n;
    }
  }

  /** The names already used in an archive. */
  function Names(entries: seq<ZipEntry>): set<string> {
    set i | 0 <= i < |entries| :: entries[i].name
  }

  /** A ZipOutputStream: the entries written so far, the last one open. */
  class ZipOut {
    var entries: seq<ZipEntry>

    constructor ()
      ensures entries == []
    {
      entries := [];
    }

    /** ZipOutputStream.putNextEntry: refuses a name it has already written. */
    method PutNextEntry(name: string) returns (r: Outcome)
      modifies this
      ensures r == (if name in Names(old(entries)) then Fail(DuplicateEntry(name)) else Pass)
      ensures entries == if r.Pass? then old(entries) + [ZipEntry(name, [])] else old(entries)
    {
      if name in Names(entries) {
        return Fail(DuplicateEntry(name));
      }
      entries := entries + [ZipEntry(name, [])];
      r := Pass;
    }

    /** ZipOutputStream.write(byte[], int, int) into the open entry. */
    method Write(buf: array<byte>, off: nat, len: nat)
      requires |entries| > 0 && off + len <= buf.Length
      modifies this
      ensures |entries| == |old(entries)|
      ensures entries[..|entries| - 1] == old(entries)[..|entries| - 1]
      ensures entries[|entries| - 1]
        == old(entries)[|entries| - 1].(data := old(entries)[|entries| - 1].data + buf[off..off + len])
    {
      var last := entries[|entries| - 1];
      entries := entries[..|entries| - 1] + [last.(data := last.data + buf[off..off + len])];
    }
  }
}
