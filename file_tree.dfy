/** The file system as a value: a map from path to node. The root `[]` is
    an implicit directory that is never a key. Each function gives the
    effect of one java.nio.file.Files call, or the exception it throws. */
module FileTree {
  import opened Base

  /** A directory, or a regular file with its bytes; `readable` is false
      for a file the process may not open for reading. */
  datatype Node = Dir | File(data: seq<byte>, readable: bool)

  type FS = map<Path, Node>

  /** Files.exists */
  predicate Exists(fs: FS, p: Path) {
    p == [] || p in fs
  }

  /** Files.isDirectory */
  predicate IsDir(fs: FS, p: Path) {
    p == [] || (p in fs && fs[p].Dir?)
  }

  /** A regular file; the root is always a directory. */
  predicate IsFile(fs: FS, p: Path) {
    p != [] && p in fs && fs[p].File?
  }

  /** Every node hangs below a directory: the shape a real file tree has. */
  predicate WellFormed(fs: FS) {
    forall q :: q in fs ==> |q| > 0 && IsDir(fs, Parent(q))
  }

  /** `fs` and `fs'` hold the same node, or none, at `q`. */
  predicate Agree(fs: FS, fs': FS, q: Path) {
    (q in fs <==> q in fs') && (q in fs ==> fs[q] == fs'[q])
  }

  /** No component along `p`, `p` included, is a regular file. */
  predicate NoFileOnPath(fs: FS, p: Path) {
    forall k :: 0 < k <= |p| ==> !IsFile(fs, p[..k])
  }

  /** The state after an operation: the new state, or the old one when the
      operation threw before changing anything. */
  function After(fs: FS, r: Result<FS>): FS {
    if r.Ok? then r.value else fs
  }

  /** Files.createDirectory: the parent must be a directory and nothing may
      exist at `p` yet. */
  function CreateDirectory(fs: FS, p: Path): (r: Result<FS>)
    ensures r.Ok? <==> !Exists(fs, p) && IsDir(fs, Parent(p))
    ensures r.Ok? ==> r.value == fs[p := Dir]
  {
    if Exists(fs, p) then Err(FileAlreadyExists(p))
    else if !Exists(fs, Parent(p)) then Err(NoSuchFile(p))
    else if !IsDir(fs, Parent(p)) then Err(NotDirectory(Parent(p)))
    else Ok(fs[p := Dir])
  }

  /** Files.createDirectories: creates every missing directory along `p`;
      fails when a component of `p` is a regular file. */
  function CreateDirectories(fs: FS, p: Path): (r: Result<FS>)
    ensures NoFileOnPath(fs, p) ==> r.Ok?
    ensures r.Ok? ==> IsDir(r.value, p)
    ensures r.Ok? ==> forall q :: q in fs ==> q in r.value && r.value[q] == fs[q]
    ensures r.Ok? ==> forall q :: q in r.value && q !in fs ==> IsPrefix(q, p) && r.value[q] == Dir
    decreases |p|
  {
    if IsDir(fs, p) then Ok(fs)
    else if p in fs then
      assert p[..|p|] == p;
      Err(FileAlreadyExists(p))
    else
      assert forall k :: 0 < k <= |Parent(p)| ==> Parent(p)[..k] == p[..k];
      match CreateDirectories(fs, Parent(p))
      case Err(e) => Err(e)
      case Ok(fs1) => Ok(fs1[p := Dir])
  }

  /** Files.newOutputStream followed by writing `data` and closing: creates
      or truncates the regular file at `p`. */
  function WriteFile(fs: FS, p: Path, data: seq<byte>): (r: Result<FS>)
    ensures r.Ok? <==> !IsDir(fs, p) && IsDir(fs, Parent(p))
    ensures r.Ok? ==> r.value == fs[p := File(data, true)]
  {
    if IsDir(fs, p) then Err(IsDirectory(p))
    else if !Exists(fs, Parent(p)) then Err(NoSuchFile(p))
    else if !IsDir(fs, Parent(p)) then Err(NotDirectory(Parent(p)))
    else Ok(fs[p := File(data, true)])
  }

  /** Files.newInputStream followed by reading to the end. */
  function ReadFile(fs: FS, p: Path): (r: Result<seq<byte>>)
    ensures r.Ok? <==> p in fs && fs[p].File? && fs[p].readable
    ensures r.Ok? ==> r.value == fs[p].data
  {
    if p !in fs then Err(NoSuchFile(p))
    else match fs[p]
      case Dir => Err(IsDirectory(p))
      case File(data, readable) => if readable then Ok(data) else Err(AccessDenied(p))
  }

  /** MoreFiles.deleteRecursively: `p` and everything below it disappear. */
  function DeleteRecursively(fs: FS, p: Path): (r: FS)
    ensures forall q :: q in r ==> !IsPrefix(p, q)
    ensures forall q :: !IsPrefix(p, q) ==> Agree(fs, r, q)
  {
    map q | q in fs && !IsPrefix(p, q) :: fs[q]
  }

  /** Files.deleteIfExists: a directory must be empty to be deleted. */
  function DeleteIfExists(fs: FS, p: Path): (r: Result<FS>)
    ensures r.Ok? ==> p !in r.value
    ensures r.Ok? ==> forall q :: q != p ==> Agree(fs, r.value, q)
  {
    if p !in fs then Ok(fs)
    else if fs[p].Dir? && exists q :: q in fs && |q| > |p| && IsPrefix(p, q) then Err(DirectoryNotEmpty(p))
    else Ok(fs - {p})
  }

  /** Files.copy(InputStream, Path): the target must not exist yet. */
  function CopyIn(fs: FS, p: Path, data: seq<byte>): (r: Result<FS>)
    ensures r.Ok? ==> !Exists(fs, p) && r.value == fs[p := File(data, true)]
  {
    if Exists(fs, p) then Err(FileAlreadyExists(p)) else WriteFile(fs, p, data)
  }

  /** What Files.walk(root) visits: `root` and everything below it. */
  function Subtree(fs: FS, root: Path): set<Path> {
    set q | q in fs && IsPrefix(root, q)
  }

  /** Creating a directory under a directory keeps the tree well formed. */
  lemma CreateDirectoryWellFormed(fs: FS, p: Path)
    requires WellFormed(fs) && CreateDirectory(fs, p).Ok?
    ensures WellFormed(CreateDirectory(fs, p).value)
  {
  }

  /** Creating the directories along a path keeps the tree well formed. */
  lemma {:induction false} CreateDirectoriesWellFormed(fs: FS, p: Path)
    requires WellFormed(fs) && CreateDirectories(fs, p).Ok?
    ensures WellFormed(CreateDirectories(fs, p).value)
    decreases |p|
  {
    if !IsDir(fs, p) {
      CreateDirectoriesWellFormed(fs, Parent(p));
      var fs1 := CreateDirectories(fs, Parent(p)).value;
      assert Parent(p)[..|Parent(p)|] == Parent(p);
      assert IsDir(fs1, Parent(p));
    }
  }

  /** Writing a file under a directory keeps the tree well formed. */
  lemma WriteFileWellFormed(fs: FS, p: Path, data: seq<byte>)
    requires WellFormed(fs) && WriteFile(fs, p, data).Ok?
    ensures WellFormed(WriteFile(fs, p, data).value)
  {
  }

  /** Removing a whole subtree keeps the tree well formed. */
  lemma DeleteRecursivelyWellFormed(fs: FS, p: Path)
    requires WellFormed(fs) && |p| > 0
    ensures WellFormed(DeleteRecursively(fs, p))
  {
    var r := DeleteRecursively(fs, p);
    forall q | q in r
      ensures |q| > 0 && IsDir(r, Parent(q))
    {
      assert q in fs;
    }
  }

  /** MoreFiles.deleteRecursively when the directory exists, then
      Files.createDirectory. (The root exists but is not a node, and
      cannot be deleted.) */
  function Recreated(fs: FS, dir: Path): Result<FS> {
    var fs1 :- if !Exists(fs, dir) then Ok(fs)
               else if dir in fs then Ok(DeleteRecursively(fs, dir))
               else Err(NoSuchFile(dir));
    CreateDirectory(fs1, dir)
  }

  /** A recreated directory exists and is empty, whether or not it existed
      before; nothing outside it changes; and it succeeds whenever its
      parent is a directory. */
  lemma RecreatedEmpty(fs: FS, dir: Path)
    requires WellFormed(fs) && |dir| > 0
    ensures IsDir(fs, Parent(dir)) ==> Recreated(fs, dir).Ok?
    ensures Recreated(fs, dir).Ok? ==>
      var fs' := Recreated(fs, dir).value;
      && dir in fs' && fs'[dir] == Dir
      && (forall q :: q in fs' && IsPrefix(dir, q) ==> q == dir)
      && (forall q :: !IsPrefix(dir, q) ==> Agree(fs, fs', q))
  {
    assert !IsPrefix(dir, Parent(dir));
    if !Exists(fs, dir) {
      forall q | q in fs
        ensures !IsPrefix(dir, q)
      {
        NoNodeBelowAbsent(fs, dir, q);
      }
    } else if dir in fs {
      var fs1 := DeleteRecursively(fs, dir);
      if CreateDirectory(fs1, dir).Ok? {
        var fs' := fs1[dir := Dir];
        forall q | q in fs' && IsPrefix(dir, q)
          ensures q == dir
        {
        }
      }
    }
  }

  /** Recreating a directory keeps the tree well formed. */
  lemma RecreatedWellFormed(fs: FS, dir: Path)
    requires WellFormed(fs) && |dir| > 0 && Recreated(fs, dir).Ok?
    ensures WellFormed(Recreated(fs, dir).value)
  {
    if Exists(fs, dir) {
      DeleteRecursivelyWellFormed(fs, dir);
      CreateDirectoryWellFormed(DeleteRecursively(fs, dir), dir);
    } else {
      CreateDirectoryWellFormed(fs, dir);
    }
  }

  /** In a well-formed tree nothing hangs below a path that is absent. */
  lemma {:induction false} NoNodeBelowAbsent(fs: FS, dir: Path, q: Path)
    requires WellFormed(fs) && |dir| > 0 && dir !in fs && q in fs
    ensures !IsPrefix(dir, q)
    decreases |q|
  {
    if IsPrefix(dir, q) && q != dir {
      var p := Parent(q);
      assert p[..|dir|] == q[..|dir|];
      NoNodeBelowAbsent(fs, dir, p);
    }
  }

  /** In a well-formed tree every proper ancestor of a node is a
      directory. */
  lemma {:induction false} AncestorIsDir(fs: FS, q: Path, a: Path)
    requires WellFormed(fs) && q in fs && IsPrefix(a, q) && |a| < |q|
    ensures IsDir(fs, a)
    decreases |q|
  {
    var p := Parent(q);
    if |a| < |p| {
      assert p[..|a|] == q[..|a|];
      AncestorIsDir(fs, p, a);
    } else {
      assert a == q[..|a|] == p;
    }
  }
}
