/** How the deployer turns archive entry names into paths (Path.resolve)
    and relative paths into archive entry names (Path.toString followed by
    replacing every '\' with '/'), on a file system whose separator is '/'. */
module Paths {
  import opened Base
  import opened Text

  /** The non-empty strings of `parts`, in order. */
  function NonEmpty(parts: seq<string>): (r: seq<string>)
    ensures forall i :: 0 <= i < |r| ==> r[i] != "" && r[i] in parts
    ensures (forall i :: 0 <= i < |parts| ==> parts[i] != "") ==> r == parts
    decreases |parts|
  {
    if |parts| == 0 then []
    else if parts[0] == "" then NonEmpty(parts[1..])
    else [parts[0]] + NonEmpty(parts[1..])
  }

  /** The name components a '/'-separated name string denotes: repeated,
      leading and trailing separators produce no component. */
  function Components(name: string): (r: seq<string>)
    ensures forall i :: 0 <= i < |r| ==> r[i] != "" && '/' !in r[i]
  {
    NonEmpty(Pieces(name, '/'))
  }

  /** Path.resolve(String): an absolute name replaces `dir`, a relative one
      is appended to it. */
  function Resolve(dir: Path, name: string): Path {
    if StartsWith(name, "/") then Components(name) else dir + Components(name)
  }

  /** Resolving a plain name appends it as one component. */
  lemma ResolvePlain(dir: Path, name: string)
    requires name != "" && '/' !in name
    ensures Resolve(dir, name) == dir + [name]
  {
    PiecesWithoutSep(name, '/');
    assert name[0] != '/';
  }

  /** Path.toString of a relative path. */
  function PathString(rel: Path): string {
    JoinWith(rel, '/')
  }

  /** Path.toAbsolutePath().toString() of a path held from the root. */
  function Render(p: Path): string {
    "/" + JoinWith(p, '/')
  }

  /** The entry name a file at `rel` below the packed directory gets:
      its path string with every '\' replaced by '/'. */
  function EntryName(rel: Path): string {
    Replace(PathString(rel), "\\", "/")
  }

  /** A name none of whose '/'-separated components is "." or "..": the
      only names whose place the model's file system, which does not
      resolve those two, gives as the operating system would. */
  predicate NoDotComponents(name: string) {
    forall c :: c in Pieces(name, '/') ==> c != "." && c != ".."
  }

  /** An entry name made of non-empty '/'-separated components, none of
      them "." or ".." and none holding a '\\'. */
  predicate CanonicalName(name: string) {
    && '\\' !in name && NoDotComponents(name)
    && forall c :: c in Pieces(name, '/') ==> c != ""
  }

  /** A canonical name resolves below the directory, one component per
      piece, and the file it lands on is packed again under the same name. */
  lemma CanonicalNameResolves(dir: Path, name: string)
    requires CanonicalName(name)
    ensures Resolve(dir, name) == dir + Pieces(name, '/')
    ensures IsPrefix(dir, Resolve(dir, name))
    ensures EntryName(Resolve(dir, name)[|dir|..]) == name
  {
    var ps := Pieces(name, '/');
    assert ps[0] in ps;
    assert !StartsWith(name, "/");
    assert forall i :: 0 <= i < |ps| ==> ps[i] in ps;
    assert Components(name) == ps;
    JoinOfPieces(name, '/');
    if Contains(name, "\\") {
      ContainsChar(name, '\\');
    }
    assert (dir + ps)[|dir|..] == ps;
  }

  /** A component that survives the entry-name round trip unchanged and
      that a file system does not resolve. */
  predicate PlainComponent(c: string) {
    c != "" && c != "." && c != ".." && '/' !in c && '\\' !in c
  }

  predicate PlainPath(rel: Path) {
    forall i :: 0 <= i < |rel| ==> PlainComponent(rel[i])
  }

  /** A one-character string occurs only where that character does. */
  lemma {:induction false} ContainsChar(s: string, c: char)
    requires Contains(s, [c])
    ensures c in s
    decreases |s|
  {
    if !StartsWith(s, [c]) {
      ContainsChar(s[1..], c);
    } else {
      assert s[0] == c;
    }
  }

  /** Every character of a join comes from a part or is the separator. */
  lemma {:induction false} CharOfJoin(parts: seq<string>, sep: char, c: char)
    requires c in JoinWith(parts, sep)
    ensures c == sep || exists i :: 0 <= i < |parts| && c in parts[i]
    decreases |parts|
  {
    if |parts| > 1 {
      var rest := JoinWith(parts[1..], sep);
      assert JoinWith(parts, sep) == parts[0] + [sep] + rest;
      if c !in parts[0] && c != sep {
        assert c in rest;
        CharOfJoin(parts[1..], sep, c);
        var i :| 0 <= i < |parts[1..]| && c in parts[1..][i];
        assert c in parts[i + 1];
      }
    }
  }

  /** The entry name of a path of plain components parses back to the same
      components: packing and unpacking agree on where a file lives. */
  lemma EntryNameComponents(rel: Path)
    requires PlainPath(rel)
    ensures EntryName(rel) == PathString(rel)
    ensures Components(EntryName(rel)) == rel
  {
    var s := PathString(rel);
    if Contains(s, "\\") {
      ContainsChar(s, '\\');
      CharOfJoin(rel, '/', '\\');
      assert false;
    }
    if |rel| == 0 {
      assert Pieces(s, '/') == [""];
    } else {
      PiecesOfJoin(rel, '/');
    }
  }

  /** Distinct plain relative paths get distinct entry names. */
  lemma EntryNameInjective(r1: Path, r2: Path)
    requires PlainPath(r1) && PlainPath(r2) && EntryName(r1) == EntryName(r2)
    ensures r1 == r2
  {
    EntryNameComponents(r1);
    EntryNameComponents(r2);
  }

  /** A join of non-empty parts starts with the first part's first
      character and ends with the last part's last character. */
  lemma {:induction false} JoinEnds(parts: seq<string>, sep: char)
    requires |parts| > 0 && forall i :: 0 <= i < |parts| ==> parts[i] != ""
    ensures var s := JoinWith(parts, sep);
      |s| > 0 && s[0] == parts[0][0] && s[|s| - 1] == parts[|parts| - 1][|parts[|parts| - 1]| - 1]
    decreases |parts|
  {
    if |parts| > 1 {
      JoinEnds(parts[1..], sep);
    }
  }

  /** The entry name of a non-empty plain relative path is relative (no
      leading '/') and names a file (no trailing '/'), and Path.resolve
      puts it back at the same place below any directory. */
  lemma EntryNameResolves(dir: Path, rel: Path)
    requires PlainPath(rel) && |rel| > 0
    ensures !StartsWith(EntryName(rel), "/") && !EndsWith(EntryName(rel), "/")
    ensures Resolve(dir, EntryName(rel)) == dir + rel
  {
    EntryNameComponents(rel);
    JoinEnds(rel, '/');
    var s := EntryName(rel);
    var last := rel[|rel| - 1];
    assert last[|last| - 1] in last;
    assert rel[0][0] in rel[0];
  }
}
